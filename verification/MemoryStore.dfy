/**
 The in-memory store of src/store/memory.c: a growable array with swap-with-last
 removal, lazy expiry, and slots that a failed copy leaves empty. Every operation is
 proved against the finite-map functions of StoreSpec.
 */
module MemoryStores {
  import opened Wrappers
  import opened Sessions
  import StoreSpec

  type Store = StoreSpec.Store

  const INITIAL_CAPACITY: nat := 8

  /** The capacity after memory_store_grow. */
  function Enlarged(count: nat, capacity: nat, reallocOk: bool): nat {
    if count < capacity || !reallocOk then capacity
    else if capacity == 0 then INITIAL_CAPACITY else 2 * capacity
  }

  // ---------------------------------------------------------------- array contents as a map

  /** Identifiers are unique, and a slot without identifier is blank. */
  ghost predicate WellFormed(s: seq<Session>) {
    && (forall i, j :: 0 <= i < j < |s| && s[i].id.Some? ==> s[i].id != s[j].id)
    && (forall i :: 0 <= i < |s| && s[i].id.None? ==> s[i] == BLANK)
  }

  ghost function MapOf(s: seq<Session>): (m: Store)
    requires WellFormed(s)
    ensures forall i :: 0 <= i < |s| && s[i].id.Some? ==> s[i].id.value in m && m[s[i].id.value] == s[i]
    ensures forall k :: k in m ==> exists i :: 0 <= i < |s| && s[i].id == Some(k)
    ensures StoreSpec.Keyed(m)
  {
    map i | 0 <= i < |s| && s[i].id.Some? :: s[i].id.value := s[i]
  }

  /** The slots after memory_store_remove_at: the last one moves into the hole. */
  function SwapRemoved(s: seq<Session>, i: nat): seq<Session>
    requires i < |s|
  {
    s[i := s[|s| - 1]][..|s| - 1]
  }

  lemma PrefixKept(s: seq<Session>, i: nat)
    requires i < |s|
    ensures |SwapRemoved(s, i)| == |s| - 1 && SwapRemoved(s, i)[..i] == s[..i]
    ensures forall j :: 0 <= j < i ==> SwapRemoved(s, i)[j] == s[j]
  {
  }

  lemma SwapRemovedWellFormed(s: seq<Session>, i: nat)
    requires i < |s| && WellFormed(s)
    ensures WellFormed(SwapRemoved(s, i))
  {
    var t := SwapRemoved(s, i);
    assert forall j :: 0 <= j < |t| ==> t[j] == if j == i then s[|s| - 1] else s[j];
  }

  /** The map of a well-formed sequence is the only one that agrees with it in both directions. */
  lemma MapOfUnique(s: seq<Session>, m: Store)
    requires WellFormed(s)
    requires forall j :: 0 <= j < |s| && s[j].id.Some? ==> s[j].id.value in m && m[s[j].id.value] == s[j]
    requires forall k :: k in m ==> exists j :: 0 <= j < |s| && s[j].id == Some(k)
    ensures MapOf(s) == m
  {
    forall k | k in m ensures k in MapOf(s) && MapOf(s)[k] == m[k] {
      var j :| 0 <= j < |s| && s[j].id == Some(k);
    }
    forall k | k in MapOf(s) ensures k in m {
      var j :| 0 <= j < |s| && s[j].id == Some(k);
    }
  }

  ghost function AfterRemoval(s: seq<Session>, i: nat): Store
    requires i < |s| && WellFormed(s)
  {
    if s[i].id.None? then MapOf(s) else StoreSpec.Without(MapOf(s), s[i].id.value)
  }

  /** Every slot that is left is in the map, and the removed identifier is in no other slot. */
  lemma RemovalForward(s: seq<Session>, i: nat, j: nat)
    requires i < |s| && WellFormed(s) && j < |s| - 1 && SwapRemoved(s, i)[j].id.Some?
    ensures var x := SwapRemoved(s, i)[j]; x.id.value in AfterRemoval(s, i) && AfterRemoval(s, i)[x.id.value] == x
  {
    var j' := if j == i then |s| - 1 else j;
    assert SwapRemoved(s, i)[j] == s[j'] && s[j'].id != s[i].id;
    hide WellFormed;
  }

  lemma RemovalBackward(s: seq<Session>, i: nat, k: string)
    requires i < |s| && WellFormed(s) && k in AfterRemoval(s, i)
    ensures exists j :: 0 <= j < |SwapRemoved(s, i)| && SwapRemoved(s, i)[j].id == Some(k)
  {
    hide WellFormed;
    var j :| 0 <= j < |s| && s[j].id == Some(k);
    var j' := if j == |s| - 1 then i else j;
    assert SwapRemoved(s, i)[j'] == s[j];
  }

  lemma SwapRemovedMap(s: seq<Session>, i: nat)
    requires i < |s| && WellFormed(s)
    ensures WellFormed(SwapRemoved(s, i))
    ensures MapOf(SwapRemoved(s, i)) == if s[i].id.None? then MapOf(s) else StoreSpec.Without(MapOf(s), s[i].id.value)
  {
    SwapRemovedWellFormed(s, i);
    hide WellFormed, MapOf;
    var t := SwapRemoved(s, i);
    forall j | 0 <= j < |t| && t[j].id.Some? ensures t[j].id.value in AfterRemoval(s, i) && AfterRemoval(s, i)[t[j].id.value] == t[j] {
      RemovalForward(s, i, j);
    }
    forall k | k in AfterRemoval(s, i) ensures exists j :: 0 <= j < |t| && t[j].id == Some(k) {
      RemovalBackward(s, i, k);
    }
    MapOfUnique(t, AfterRemoval(s, i));
  }

  ghost function AfterOverwrite(s: seq<Session>, i: nat, x: Session): Store
    requires i < |s| && WellFormed(s) && s[i].id.Some?
  {
    if x == BLANK then StoreSpec.Without(MapOf(s), s[i].id.value) else MapOf(s)[s[i].id.value := x]
  }

  lemma OverwriteForward(s: seq<Session>, i: nat, x: Session, j: nat)
    requires i < |s| && WellFormed(s) && s[i].id.Some? && (x.id == s[i].id || x == BLANK)
    requires j < |s| && s[i := x][j].id.Some?
    ensures var y := s[i := x][j]; y.id.value in AfterOverwrite(s, i, x) && AfterOverwrite(s, i, x)[y.id.value] == y
  {
    assert j != i ==> s[i := x][j] == s[j] && s[j].id != s[i].id;
    hide WellFormed;
  }

  lemma OverwriteBackward(s: seq<Session>, i: nat, x: Session, k: string)
    requires i < |s| && WellFormed(s) && s[i].id.Some? && (x.id == s[i].id || x == BLANK)
    requires k in AfterOverwrite(s, i, x)
    ensures var t := s[i := x]; exists j :: 0 <= j < |t| && t[j].id == Some(k)
  {
    hide WellFormed;
    if k == s[i].id.value {
      assert s[i := x][i] == x;
    } else {
      var j :| 0 <= j < |s| && s[j].id == Some(k);
      assert s[i := x][j] == s[j];
    }
  }

  /** Overwriting a slot with a session of the same identifier, or blanking it. */
  lemma OverwriteMap(s: seq<Session>, i: nat, x: Session)
    requires i < |s| && WellFormed(s) && s[i].id.Some?
    requires x.id == s[i].id || x == BLANK
    ensures WellFormed(s[i := x])
    ensures MapOf(s[i := x]) == if x == BLANK then StoreSpec.Without(MapOf(s), s[i].id.value)
                                else MapOf(s)[s[i].id.value := x]
  {
    var t := s[i := x];
    assert WellFormed(t);
    hide WellFormed, MapOf;
    forall j | 0 <= j < |t| && t[j].id.Some?
      ensures t[j].id.value in AfterOverwrite(s, i, x) && AfterOverwrite(s, i, x)[t[j].id.value] == t[j] {
      OverwriteForward(s, i, x, j);
    }
    forall k | k in AfterOverwrite(s, i, x) ensures exists j :: 0 <= j < |t| && t[j].id == Some(k) {
      OverwriteBackward(s, i, x, k);
    }
    MapOfUnique(t, AfterOverwrite(s, i, x));
  }

  lemma AppendMap(s: seq<Session>, x: Session)
    requires WellFormed(s) && x.id.Some? && x.id.value !in MapOf(s)
    ensures WellFormed(s + [x])
    ensures MapOf(s + [x]) == MapOf(s)[x.id.value := x]
  {
    var t := s + [x];
    var m := MapOf(s)[x.id.value := x];
    assert WellFormed(t) by {
      forall i | 0 <= i < |s| ensures s[i].id != x.id { }
    }
    hide WellFormed;
    forall j | 0 <= j < |t| && t[j].id.Some? ensures t[j].id.value in m && m[t[j].id.value] == t[j] {
      if j < |s| { assert t[j] == s[j]; }
    }
    forall k | k in m ensures exists j :: 0 <= j < |t| && t[j].id == Some(k) {
      if k != x.id.value {
        var j :| 0 <= j < |s| && s[j].id == Some(k);
        assert t[j] == s[j];
      } else {
        assert t[|s|] == x;
      }
    }
    MapOfUnique(t, m);
  }

  /** Dropping a session that is dead by now keeps to what a purge may drop. */
  lemma DropExpired(m: Store, s: seq<Session>, i: nat, now: int, end: int)
    requires i < |s| && WellFormed(s) && Expired(s[i], now) && now <= end
    requires Dropped(m, MapOf(s), end)
    ensures WellFormed(SwapRemoved(s, i)) && Dropped(m, MapOf(SwapRemoved(s, i)), end)
  {
    assert s[i].id.Some?;
    assert s[i].id.value in MapOf(s) && MapOf(s)[s[i].id.value] == s[i];
    hide WellFormed, MapOf, SwapRemoved;
    SwapRemovedMap(s, i);
  }

  /** A part of a store that lacks only sessions dead at a time. */
  ghost predicate Dropped(m: Store, m': Store, end: int) {
    && (forall k :: k in m' ==> k in m && m'[k] == m[k])
    && (forall k :: k in m && k !in m' ==> Expired(m[k], end))
  }

  lemma NothingDropped(m: Store, end: int)
    ensures Dropped(m, m, end)
  {
  }

  /** Time does not run backwards. */
  ghost predicate Steady(clock: nat -> int) {
    forall i: nat, j: nat :: i <= j ==> clock(i) <= clock(j)
  }

  /** Once no slot holds a session that was dead at the start, the purge is complete. */
  lemma PurgeComplete(m: Store, s: seq<Session>, start: int, end: int)
    requires WellFormed(s) && forall j :: 0 <= j < |s| ==> !Expired(s[j], start)
    requires Dropped(m, MapOf(s), end)
    ensures StoreSpec.Purged(m, MapOf(s), start, end)
  {
    forall k | k in MapOf(s) ensures !Expired(MapOf(s)[k], start) {
      var j :| 0 <= j < |s| && s[j].id == Some(k);
    }
  }

  lemma WithoutTheUser(m: Store, k: string, user: string)
    requires k in m && m[k].userId == Some(user)
    ensures StoreSpec.NotOfUser(StoreSpec.Without(m, k), user) == StoreSpec.NotOfUser(m, user)
  {
  }

  lemma DropOfUser(s: seq<Session>, i: nat, user: string)
    requires i < |s| && WellFormed(s) && s[i].userId == Some(user)
    ensures WellFormed(SwapRemoved(s, i))
    ensures StoreSpec.NotOfUser(MapOf(SwapRemoved(s, i)), user) == StoreSpec.NotOfUser(MapOf(s), user)
  {
    assert s[i].id.Some?;
    assert s[i].id.value in MapOf(s) && MapOf(s)[s[i].id.value] == s[i];
    hide WellFormed, MapOf, SwapRemoved, StoreSpec.NotOfUser, StoreSpec.Without;
    SwapRemovedMap(s, i);
    WithoutTheUser(MapOf(s), s[i].id.value, user);
  }

  lemma NoneOfUser(s: seq<Session>, user: string)
    requires WellFormed(s) && forall j :: 0 <= j < |s| ==> s[j].userId != Some(user)
    ensures StoreSpec.NotOfUser(MapOf(s), user) == MapOf(s)
  {
    forall k | k in MapOf(s) ensures MapOf(s)[k].userId != Some(user) {
      var j :| 0 <= j < |s| && s[j].id == Some(k);
    }
  }

  /** The slots of one user, in array order. */
  function Matches(s: seq<Session>, user: string): (r: seq<Session>)
    ensures |r| <= |s|
  {
    if |s| == 0 then []
    else
      var rest := Matches(s[..|s| - 1], user);
      if s[|s| - 1].userId == Some(user) then rest + [s[|s| - 1]] else rest
  }

  /** `xs` lists the sessions of `m`, each once. */
  ghost predicate Enumerates(xs: seq<Session>, m: Store) {
    && (forall i, j :: 0 <= i < j < |xs| ==> xs[i].id != xs[j].id)
    && (forall i :: 0 <= i < |xs| ==> xs[i].id.Some? && xs[i].id.value in m && m[xs[i].id.value] == xs[i])
    && (forall k :: k in m ==> m[k] in xs)
  }

  lemma {:induction false} MatchesIn(s: seq<Session>, user: string)
    requires WellFormed(s)
    ensures forall x :: x in Matches(s, user) <==> x in s && x.userId == Some(user)
    ensures forall i, j :: 0 <= i < j < |Matches(s, user)| ==> Matches(s, user)[i].id != Matches(s, user)[j].id
    ensures forall i :: 0 <= i < |Matches(s, user)| ==> Matches(s, user)[i].id.Some?
  {
    if |s| > 0 {
      var t, x := s[..|s| - 1], s[|s| - 1];
      assert s == t + [x];
      LastDiffers(s, user);
      hide WellFormed;
      MatchesIn(t, user);
    }
  }

  /** The last slot of a user is a named session, and no earlier one has its name. */
  lemma LastDiffers(s: seq<Session>, user: string)
    requires |s| > 0 && WellFormed(s)
    ensures WellFormed(s[..|s| - 1])
    ensures forall x :: x in s[..|s| - 1] && x.id.Some? ==> x.id != s[|s| - 1].id
    ensures s[|s| - 1].userId == Some(user) ==> s[|s| - 1].id.Some?
  {
  }

  lemma MatchesEnumerate(s: seq<Session>, user: string)
    requires WellFormed(s)
    ensures Enumerates(Matches(s, user), StoreSpec.OfUser(MapOf(s), user))
  {
    MatchesIn(s, user);
    var xs, m := Matches(s, user), StoreSpec.OfUser(MapOf(s), user);
    forall i | 0 <= i < |xs|
      ensures xs[i].id.Some? && xs[i].id.value in m && m[xs[i].id.value] == xs[i]
    {
      assert xs[i] in s && xs[i].userId == Some(user);
      var j :| 0 <= j < |s| && s[j] == xs[i];
    }
    forall k | k in m ensures m[k] in xs {
      var i :| 0 <= i < |s| && s[i].id == Some(k);
      assert m[k] == s[i] && s[i] in s;
    }
  }

  /** Turn j of the filling loop can copy its session. */
  ghost predicate Fillable(order: seq<Session>, copies: nat -> StringAlloc) {
    forall j: nat :: j < |order| ==> CopySucceeds(order[j], copies(j))
  }

  /** Two listings of one map are permutations of each other. */
  lemma {:induction false} EnumerationsArePermutations(xs: seq<Session>, ys: seq<Session>, m: Store)
    requires Enumerates(xs, m) && Enumerates(ys, m)
    ensures multiset(xs) == multiset(ys)
  {
    forall x ensures multiset(xs)[x] == multiset(ys)[x] {
      OccursOnce(xs, m, x);
      OccursOnce(ys, m, x);
    }
  }

  lemma OccursOnce(xs: seq<Session>, m: Store, x: Session)
    requires Enumerates(xs, m)
    ensures multiset(xs)[x] == if x.id.Some? && x.id.value in m && m[x.id.value] == x then 1 else 0
  {
    if x in xs {
      var i :| 0 <= i < |xs| && xs[i] == x;
      assert xs == xs[..i] + [x] + xs[i + 1..];
      assert x !in xs[..i] && x !in xs[i + 1..];
      assert multiset(xs) == multiset(xs[..i]) + multiset{x} + multiset(xs[i + 1..]);
    }
  }

  lemma {:induction false} MatchesPrefix(s: seq<Session>, i: nat, user: string)
    requires i <= |s|
    ensures Matches(s[..i], user) <= Matches(s, user)
    decreases |s| - i
  {
    if i < |s| {
      assert s[..i + 1][..i] == s[..i];
      MatchesPrefix(s, i + 1, user);
    } else {
      assert s[..i] == s;
    }
  }

  lemma NoMatches(s: seq<Session>, user: string)
    ensures Matches(s[..0], user) == []
  {
  }

  lemma MatchesNext(s: seq<Session>, i: nat, user: string)
    requires i < |s|
    ensures Matches(s[..i + 1], user) == Matches(s[..i], user) + (if s[i].userId == Some(user) then [s[i]] else [])
    ensures Matches(s[..i + 1], user) <= Matches(s, user)
  {
    MatchesPrefix(s, i + 1, user);
    assert s[..i + 1][..i] == s[..i];
  }

  // ---------------------------------------------------------------- the store

  class MemoryStore {
    var sessions: array<Session>
    var count: nat
    var capacity: nat

    ghost predicate Valid()
      reads this, sessions
    {
      count <= capacity == sessions.Length && WellFormed(sessions[..count])
    }

    /** The abstract value of the store. */
    ghost function Model(): Store
      reads this, sessions
      requires Valid()
    {
      MapOf(sessions[..count])
    }

    constructor ()
      ensures Valid() && Model() == map[] && fresh(sessions) && count == capacity == 0
    {
      sessions := new Session[0];
      count, capacity := 0, 0;
    }

    /** memory_store_grow: room for one more session, doubling the array when it is full. */
    method Grow(reallocOk: bool) returns (ok: bool)
      requires Valid()
      modifies this`sessions, this`capacity
      ensures Valid() && (sessions == old(sessions) || fresh(sessions))
      ensures sessions[..count] == old(sessions[..count])
      ensures ok == (count < old(capacity) || reallocOk)
      ensures ok ==> count < capacity
      ensures capacity == Enlarged(count, old(capacity), reallocOk)
    {
      hide WellFormed, MapOf;
      if count < capacity {
        return true;
      }
      var newCapacity := if capacity == 0 then INITIAL_CAPACITY else capacity * 2;
      if !reallocOk {
        return false;
      }
      var grown := new Session[newCapacity](_ => BLANK);
      forall i | 0 <= i < count { grown[i] := sessions[i]; }
      assert grown[..count] == sessions[..count];
      sessions := grown;
      capacity := newCapacity;
      assert sessions[..count] == old(sessions[..count]);
      ok := true;
    }

    /** memory_store_find: the slot of an identifier, or -1. */
    method Find(id: Option<string>) returns (idx: int)
      requires Valid()
      ensures -1 <= idx < count
      ensures idx >= 0 <==> id.Some? && id.value in Model()
      ensures idx >= 0 ==> sessions[idx].id == id && Model()[id.value] == sessions[idx]
    {
      if id.None? {
        return -1;
      }
      ghost var s := sessions[..count];
      for i := 0 to count
        invariant forall j :: 0 <= j < i ==> s[j].id != id
      {
        assert s[i] == sessions[i];
        if sessions[i].id.Some? && sessions[i].id.value == id.value {
          return i;
        }
      }
      idx := -1;
    }

    /** memory_store_remove_at: the last session takes the place of the removed one. */
    method RemoveAt(idx: nat)
      requires Valid() && idx < count
      modifies this`count, sessions
      ensures Valid() && count == old(count) - 1
      ensures sessions[..count] == SwapRemoved(old(sessions[..count]), idx)
      ensures Model() == if old(sessions[idx].id).None? then old(Model())
                         else StoreSpec.Without(old(Model()), old(sessions[idx].id).value)
    {
      ghost var s := sessions[..count];
      SwapRemovedMap(s, idx);
      if idx != count - 1 {
        sessions[idx] := sessions[count - 1];
      }
      count := count - 1;
      assert sessions[..count] == SwapRemoved(s, idx);
    }

    /**
     Removes the dead; turn k of the loop reads the clock as `clock(k)`. The last slot moves
     into the hole, so the loop stays where it is after a removal.
     */
    method Expire(clock: nat -> int)
      requires Valid() && Steady(clock)
      modifies this`count, sessions
      ensures Valid() && count <= old(count)
      ensures StoreSpec.Purged(old(Model()), Model(), clock(0), clock(old(count)))
    {
      hide MapOf, WellFormed, StoreSpec.Without, Dropped, SwapRemoved, StoreSpec.Purged;
      ghost var m, n := Model(), count;
      NothingDropped(m, clock(n));
      var i, turn := 0, 0;
      while i < count
        invariant Valid() && i <= count <= n && turn == i + (n - count)
        invariant forall j :: 0 <= j < i ==> !Expired(sessions[..count][j], clock(0))
        invariant Dropped(m, Model(), clock(n))
        decreases count - i
      {
        ghost var s := sessions[..count];
        assert s[i] == sessions[i];
        assert clock(0) <= clock(turn) <= clock(n);
        if Expired(sessions[i], clock(turn)) {
          DropExpired(m, s, i, clock(turn), clock(n));
          RemoveAt(i);
          PrefixKept(s, i);
        } else {
          i := i + 1;
        }
        turn := turn + 1;
      }
      PurgeComplete(m, sessions[..count], clock(0), clock(n));
    }

    /** Copies a session into a slot; a failed copy leaves the slot blank. */
    method CopyInto(idx: nat, session: Session, a: StringAlloc) returns (ok: bool)
      requires idx < sessions.Length
      modifies sessions
      ensures ok == CopySucceeds(session, a)
      ensures sessions[idx] == if ok then session else BLANK
      ensures forall i :: 0 <= i < sessions.Length && i != idx ==> sessions[i] == old(sessions[i])
    {
      var slot := new SessionStruct();
      ok := slot.CopyFrom(session, a);
      if !ok {
        slot.Free();
      }
      sessions[idx] := slot.Value();
    }

    /** Frees the slot and copies the session over it, the tail shared by create and update. */
    method Overwrite(idx: nat, session: Session, a: StringAlloc) returns (rc: int)
      requires Valid() && idx < count && session.id.Some? && sessions[idx].id == session.id
      modifies sessions
      ensures Valid()
      ensures rc == if CopySucceeds(session, a) then 0 else -1
      ensures Model() == if rc == 0 then old(Model())[session.id.value := session]
                         else StoreSpec.Without(old(Model()), session.id.value)
    {
      hide MapOf, WellFormed, CopySucceeds;
      ghost var s := sessions[..count];
      OverwriteMap(s, idx, if CopySucceeds(session, a) then session else BLANK);
      var ok := CopyInto(idx, session, a);
      assert sessions[..count] == s[idx := if ok then session else BLANK];
      rc := if ok then 0 else -1;
    }

    /** Copies the session into the slot after the last one. */
    method Append(session: Session, a: StringAlloc) returns (rc: int)
      requires Valid() && count < capacity && session.id.Some? && session.id.value !in Model()
      modifies this`count, sessions
      ensures Valid() && count == old(count) + (if rc == 0 then 1 else 0)
      ensures rc == if CopySucceeds(session, a) then 0 else -1
      ensures Model() == if rc == 0 then old(Model())[session.id.value := session] else old(Model())
    {
      hide MapOf, WellFormed, CopySucceeds;
      ghost var s := sessions[..count];
      AppendMap(s, session);
      var ok := CopyInto(count, session, a);
      assert sessions[..count] == s;
      if !ok {
        return -1;
      }
      count := count + 1;
      assert sessions[..count] == s + [session];
      rc := 0;
    }

    method Create(session: Session, reallocOk: bool, a: StringAlloc) returns (rc: int)
      requires Valid()
      modifies this, sessions
      ensures Valid() && (sessions == old(sessions) || fresh(sessions))
      ensures (Model(), rc) ==
              StoreSpec.Create(old(Model()), session, old(count < capacity) || reallocOk, CopySucceeds(session, a))
      ensures count == old(count) + (if rc == 0 && session.id.value !in old(Model()) then 1 else 0)
      ensures capacity == if session.id.None? || session.id.value in old(Model()) then old(capacity)
                          else Enlarged(old(count), old(capacity), reallocOk)
    {
      if session.id.None? {
        return -1;
      }
      hide MapOf, WellFormed, CopySucceeds;
      var idx := Find(session.id);
      if idx >= 0 {
        rc := Overwrite(idx, session, a);
        return;
      }
      var grown := Grow(reallocOk);
      if !grown {
        return -1;
      }
      rc := Append(session, a);
    }

    method Get(id: Option<string>, now: int, mallocOk: bool, a: StringAlloc)
        returns (rc: int, out: SessionStruct?)
      requires Valid()
      modifies this`count, sessions
      ensures Valid()
      ensures rc == 0 <==> out != null
      ensures rc == 0 || rc == -1
      ensures out != null ==> fresh(out)
      ensures var copied := mallocOk && (id.Some? && id.value in old(Model()) ==> CopySucceeds(old(Model())[id.value], a));
              (Model(), if out == null then None else Some(out.Value())) == StoreSpec.Get(old(Model()), id, now, copied)
      ensures count == old(count) - (if id.Some? && id.value in old(Model()) && Expired(old(Model())[id.value], now) then 1 else 0)
    {
      out := null;
      if id.None? {
        return -1, null;
      }
      var idx := Find(id);
      if idx < 0 {
        return -1, null;
      }
      if Expired(sessions[idx], now) {
        RemoveAt(idx);
        return -1, null;
      }
      if !mallocOk {
        return -1, null;
      }
      var copy := new SessionStruct();
      var ok := copy.CopyFrom(sessions[idx], a);
      if !ok {
        return -1, null;
      }
      rc, out := 0, copy;
    }

    /** Replaces a present session, dead or alive. */
    method Update(session: Session, a: StringAlloc) returns (rc: int)
      requires Valid()
      modifies sessions
      ensures Valid()
      ensures (Model(), rc) == StoreSpec.Update(old(Model()), session, CopySucceeds(session, a))
    {
      if session.id.None? {
        return -1;
      }
      var idx := Find(session.id);
      if idx < 0 {
        return -1;
      }
      rc := Overwrite(idx, session, a);
    }

    /** Deleting an absent session is a success. */
    method Delete(id: Option<string>) returns (rc: int)
      requires Valid()
      modifies this`count, sessions
      ensures Valid() && rc == 0
      ensures Model() == StoreSpec.Delete(old(Model()), id)
    {
      rc := 0;
      var idx := Find(id);
      if idx >= 0 {
        RemoveAt(idx);
      } else {
        assert id.Some? ==> StoreSpec.Without(Model(), id.value) == Model();
      }
    }

    /**
     Purges the dead, counts the matches, allocates exactly that many slots and fills
     them all. `order` is the order of the matches in the array; the copies are made in it,
     and the first that fails gives up the whole result.
     */
    method GetByUserId(user: Option<string>, clock: nat -> int, mallocOk: bool, copies: nat -> StringAlloc)
        returns (rc: int, out: array?<Session>, n: nat, ghost order: seq<Session>)
      requires Valid() && Steady(clock)
      modifies this`count, sessions
      ensures Valid()
      ensures user.None? ==> rc == -1 && Model() == old(Model())
      ensures user.Some? ==> StoreSpec.Purged(old(Model()), Model(), clock(0), clock(old(count)))
      ensures user.Some? ==> Enumerates(order, StoreSpec.OfUser(Model(), user.value))
      ensures user.Some? ==> rc == if order == [] || (mallocOk && Fillable(order, copies)) then 0 else -1
      ensures rc == 0 ==> n == |order| && (if out == null then [] else out[..]) == order
      ensures rc != 0 ==> out == null && n == 0
    {
      if user.None? {
        return -1, null, 0, [];
      }
      hide MapOf, WellFormed, StoreSpec.Purged, StoreSpec.OfUser, Enumerates, Fillable;
      Expire(clock);
      rc, out, n, order := ListMatches(user.value, mallocOk, copies);
    }

    /** What get_by_user_id does once the dead are gone. */
    method ListMatches(user: string, mallocOk: bool, copies: nat -> StringAlloc)
        returns (rc: int, out: array?<Session>, n: nat, ghost order: seq<Session>)
      requires Valid()
      ensures Enumerates(order, StoreSpec.OfUser(Model(), user))
      ensures rc == if order == [] || (mallocOk && Fillable(order, copies)) then 0 else -1
      ensures rc == 0 ==> n == |order| && (if out == null then [] else out[..]) == order
      ensures rc != 0 ==> out == null && n == 0
    {
      MatchesEnumerate(sessions[..count], user);
      hide MapOf, WellFormed, Enumerates, StoreSpec.OfUser, Matches, Fillable;
      order := Matches(sessions[..count], user);
      var matchCount := CountMatches(user);
      if matchCount == 0 {
        return 0, null, 0, order;
      }
      if !mallocOk {
        return -1, null, 0, order;
      }
      var matches := new Session[matchCount](_ => BLANK);
      var ok := FillMatches(user, matches, copies);
      if !ok {
        return -1, null, 0, order;
      }
      rc, out, n := 0, matches, matchCount;
    }

    /** The counting loop. */
    method CountMatches(user: string) returns (n: nat)
      requires Valid()
      ensures n == |Matches(sessions[..count], user)|
    {
      ghost var s := sessions[..count];
      n := 0;
      for i := 0 to count
        invariant n == |Matches(s[..i], user)|
      {
        assert s[..i + 1][..i] == s[..i] && s[i] == sessions[i];
        if sessions[i].userId == Some(user) {
          n := n + 1;
        }
      }
      assert s[..count] == s;
    }

    /** The filling loop: it writes every slot of the result, or reports the copy that failed. */
    method FillMatches(user: string, matches: array<Session>, copies: nat -> StringAlloc)
        returns (ok: bool)
      requires Valid() && matches != sessions && matches.Length == |Matches(sessions[..count], user)|
      modifies matches
      ensures ok ==> matches[..] == Matches(sessions[..count], user)
      ensures ok <==> Fillable(Matches(sessions[..count], user), copies)
    {
      hide MapOf, WellFormed, CopySucceeds, Matches;
      ghost var s := sessions[..count];
      ghost var all := Matches(s, user);
      NoMatches(s, user);
      var written := 0;
      for i := 0 to count
        invariant sessions[..count] == s
        invariant written == |Matches(s[..i], user)|
        invariant Matches(s[..i], user) <= all
        invariant matches[..written] == Matches(s[..i], user)
        invariant forall j: nat :: j < written ==> CopySucceeds(all[j], copies(j))
      {
        MatchesNext(s, i, user);
        assert s[i] == sessions[i];
        if sessions[i].userId == Some(user) {
          assert all[written] == s[i];
          var slot := new SessionStruct();
          var copied := slot.CopyFrom(sessions[i], copies(written));
          if !copied {
            return false;
          }
          matches[written] := slot.Value();
          written := written + 1;
        }
      }
      assert s[..count] == s;
      ok := true;
    }

    method DeleteByUserId(user: Option<string>) returns (rc: int)
      requires Valid()
      modifies this`count, sessions
      ensures Valid() && rc == 0
      ensures Model() == if user.None? then old(Model()) else StoreSpec.NotOfUser(old(Model()), user.value)
    {
      rc := 0;
      if user.None? {
        return 0;
      }
      hide MapOf, WellFormed, StoreSpec.NotOfUser, StoreSpec.Without, SwapRemoved;
      ghost var m := Model();
      var i := 0;
      while i < count
        invariant Valid() && i <= count
        invariant forall j :: 0 <= j < i ==> sessions[..count][j].userId != user
        invariant StoreSpec.NotOfUser(Model(), user.value) == StoreSpec.NotOfUser(m, user.value)
        decreases count - i
      {
        ghost var s := sessions[..count];
        assert s[i] == sessions[i];
        if sessions[i].userId == user {
          DropOfUser(s, i, user.value);
          RemoveAt(i);
          PrefixKept(s, i);
        } else {
          i := i + 1;
        }
      }
      NoneOfUser(sessions[..count], user.value);
    }
  }
}
