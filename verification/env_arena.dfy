/** The environment arena: an append-only table of immutable snapshots, each
    a map from variable names to expressions. A handle is the position of its
    snapshot. Nothing is ever removed or overwritten, so the generation
    counters of the source's arena play no part and are not modelled. */
module EnvArena {
  import opened Wrappers
  import opened Syntax
  import opened Errors

  type Snapshot = map<Name, Expr>
  type Arena = seq<Snapshot>

  /** `Env::empty`: append a fresh empty snapshot and return its handle. */
  function Empty(arena: Arena): (r: (Arena, Env))
    ensures arena < r.0 && |r.0| == |arena| + 1
    ensures r.1 == |arena| && r.1 < |r.0|
    ensures forall k :: Get(r.0, r.1, k) == Ok(None)
  {
    (arena + [map[]], |arena|)
  }

  /** `Env::get`: the binding of `key` in the snapshot `env` names, if any;
      a handle the arena never issued is the `unwrap` failure. */
  function Get(arena: Arena, env: Env, key: Name): (r: Result<Option<Expr>, Error>)
    ensures r.Err? <==> env >= |arena|
    ensures r.Err? ==> r.error == DanglingEnv(env)
    ensures r.Ok? ==> (r.value.Some? <==> key in arena[env])
    ensures r.Ok? && r.value.Some? ==> r.value.value == arena[env][key]
  {
    if env < |arena| then
      Ok(if key in arena[env] then Some(arena[env][key]) else None)
    else
      Err(DanglingEnv(env))
  }

  /** `Env::insert`: copy the snapshot `env` names, bind `key` to `value` in
      the copy, append it, and return the new handle. */
  function Insert(arena: Arena, env: Env, key: Name, value: Expr): (r: Result<(Arena, Env), Error>)
    ensures r.Err? <==> env >= |arena|
    ensures r.Err? ==> r.error == DanglingEnv(env)
    ensures r.Ok? ==> arena < r.value.0 && |r.value.0| == |arena| + 1
    ensures r.Ok? ==> r.value.1 == |arena|
    ensures r.Ok? ==> Get(r.value.0, r.value.1, key) == Ok(Some(value))
    ensures r.Ok? ==> forall k :: k != key ==> Get(r.value.0, r.value.1, k) == Get(arena, env, k)
    ensures r.Ok? ==> forall h, k :: h != r.value.1 ==> Get(r.value.0, h, k) == Get(arena, h, k)
  {
    if env < |arena| then
      Ok((arena + [arena[env][key := value]], |arena|))
    else
      Err(DanglingEnv(env))
  }

  /** Every stored binding is a value form whose handles the arena issued. */
  ghost predicate WellFormed(arena: Arena) {
    forall h, k :: 0 <= h < |arena| && k in arena[h] ==>
      ValueForm(arena[h][k], |arena|) && Bounded(arena[h][k], |arena|)
  }

  /** A snapshot, once issued, answers every lookup the same way in any
      later arena. */
  lemma GetStable(arena: Arena, later: Arena, env: Env, key: Name)
    requires arena <= later && env < |arena|
    ensures Get(later, env, key) == Get(arena, env, key)
  {
  }

  /** `Empty` keeps the arena well formed. */
  lemma EmptyWellFormed(arena: Arena)
    requires WellFormed(arena)
    ensures WellFormed(Empty(arena).0)
  {
    var a' := Empty(arena).0;
    forall h, k | 0 <= h < |a'| && k in a'[h]
      ensures ValueForm(a'[h][k], |a'|) && Bounded(a'[h][k], |a'|)
    {
      BoundedGrows(a'[h][k], |arena|, |a'|);
    }
  }

  /** Binding a bounded value form keeps the arena well formed. */
  lemma InsertWellFormed(arena: Arena, env: Env, key: Name, value: Expr)
    requires WellFormed(arena) && env < |arena|
    requires ValueForm(value, |arena|) && Bounded(value, |arena|)
    ensures Insert(arena, env, key, value).Ok?
    ensures WellFormed(Insert(arena, env, key, value).value.0)
  {
    var a' := Insert(arena, env, key, value).value.0;
    forall h, k | 0 <= h < |a'| && k in a'[h]
      ensures ValueForm(a'[h][k], |a'|) && Bounded(a'[h][k], |a'|)
    {
      var e := a'[h][k];
      assert ValueForm(e, |arena|) && Bounded(e, |arena|);
      BoundedGrows(e, |arena|, |a'|);
    }
  }
}
