/** A purge shows in a create for which the array cannot grow, although neither store holds the session. */
module PurgedRoom {
  import opened Wrappers
  import opened Sessions
  import opened MemoryStores
  import StoreSpec

  const ALL := StringAlloc(true, true, true, true, true)

  function Id(i: nat): (id: string)
    ensures |id| == i + 1
  {
    seq(i + 1, _ => 'x')
  }

  /** The first of the sessions is dead from time 2 on. */
  function Nth(i: nat): Session {
    BLANK.(id := Some(Id(i)), hasExpires := i == 0, expiresAt := if i == 0 then 1 else 0)
  }

  ghost function Filled(n: nat): (m: StoreSpec.Store)
    ensures forall k :: k in m ==> 1 <= |k| <= n
    ensures n > 0 ==> Id(0) in m && m[Id(0)] == Nth(0)
  {
    if n == 0 then map[] else Filled(n - 1)[Id(n - 1) := Nth(n - 1)]
  }

  method Fill() returns (store: MemoryStore)
    ensures fresh(store) && fresh(store.sessions) && store.Valid()
    ensures store.count == 8 && store.capacity == 8 && store.Model() == Filled(8)
  {
    hide MapOf, WellFormed;
    store := new MemoryStore();
    var i := 0;
    while i < 8
      invariant fresh(store) && fresh(store.sessions) && store.Valid()
      invariant i <= 8 && store.count == i && store.capacity == (if i == 0 then 0 else 8) && store.Model() == Filled(i)
    {
      var rc := store.Create(Nth(i), true, ALL);
      i := i + 1;
    }
  }

  /**
   Two stores of eight slots with the same live sessions, in one of which a get has purged
   the dead one: with no memory to grow, only that one takes a ninth session.
   */
  method PurgeMakesRoom() returns (rc1: int, rc2: int, ghost m1: StoreSpec.Store, ghost m2: StoreSpec.Store)
    ensures StoreSpec.Live(m1, 2) == StoreSpec.Live(m2, 2) && Id(8) !in m1 && Id(8) !in m2
    ensures rc1 == -1 && rc2 == 0
  {
    hide MapOf, WellFormed, Filled, StoreSpec.Live;
    var full := Fill();
    var purged := Fill();
    var _, _ := purged.Get(Some(Id(0)), 2, true, ALL);
    m1, m2 := full.Model(), purged.Model();
    WithoutFirst(m1);
    hide StoreSpec.Without;
    rc1 := full.Create(Nth(8), false, ALL);
    rc2 := purged.Create(Nth(8), false, ALL);
  }

  lemma WithoutFirst(m: StoreSpec.Store)
    requires Id(0) in m && m[Id(0)] == Nth(0)
    ensures StoreSpec.Live(StoreSpec.Without(m, Id(0)), 2) == StoreSpec.Live(m, 2)
  {
  }
}
