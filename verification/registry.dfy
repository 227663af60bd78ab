/**
 * The registry held by UserService: a keyed store from user id to user record
 * (a ConcurrentHashMap in the service, modelled sequentially here). `Put` is the
 * one write the service ever makes (`users[id] = user`); `PutAll` is the store
 * after a whole history of such writes, in delivery order.
 */
module Registry {
  import opened Users

  type Store = map<string, User>

  /** Every entry is filed under its own record's id; both writers keep this. */
  ghost predicate Keyed(m: Store) {
    forall k :: k in m ==> m[k].id == k
  }

  /** Insert or overwrite the entry for `u.id`; nothing else moves. */
  function Put(m: Store, u: User): (r: Store)
    ensures r.Keys == m.Keys + {u.id}
    ensures r[u.id] == u
    ensures forall k :: k in m && k != u.id ==> r[k] == m[k]
  {
    m[u.id := u]
  }

  lemma PutKeepsKeyed(m: Store, u: User)
    requires Keyed(m)
    ensures Keyed(Put(m, u))
  {
  }

  /** Applying the same record twice leaves the store applying it once leaves. */
  lemma PutIdempotent(m: Store, u: User)
    ensures Put(Put(m, u), u) == Put(m, u)
  {
  }

  /** Of two writes under one id, the second wins outright. */
  lemma PutLastWriterWins(m: Store, u1: User, u2: User)
    requires u1.id == u2.id
    ensures Put(Put(m, u1), u2) == Put(m, u2)
  {
  }

  /** The ids a history writes. */
  function Ids(us: seq<User>): set<string> {
    set i | 0 <= i < |us| :: us[i].id
  }

  /** The store after writing every record of `us`, first to last. */
  function PutAll(m: Store, us: seq<User>): (r: Store)
    ensures r.Keys == m.Keys + Ids(us)
    decreases |us|
  {
    if us == [] then m
    else
      assert Ids(us) == {us[0].id} + Ids(us[1..]) by {
        forall k | k in Ids(us) ensures k in {us[0].id} + Ids(us[1..]) {
          var i :| 0 <= i < |us| && us[i].id == k;
          if i > 0 { assert us[1..][i - 1] == us[i]; }
        }
      }
      PutAll(Put(m, us[0]), us[1..])
  }

  /** Writing one history after another is writing their concatenation. */
  lemma {:induction false} PutAllAppend(m: Store, us: seq<User>, vs: seq<User>)
    ensures PutAll(m, us + vs) == PutAll(PutAll(m, us), vs)
    decreases |us|
  {
    if us != [] {
      assert (us + vs)[0] == us[0];
      assert (us + vs)[1..] == us[1..] + vs;
      PutAllAppend(Put(m, us[0]), us[1..], vs);
    } else {
      assert us + vs == vs;
    }
  }

  /** A key that no record of the history carries keeps its old entry, or stays absent. */
  lemma {:induction false} PutAllUntouched(m: Store, us: seq<User>, k: string)
    requires forall j :: 0 <= j < |us| ==> us[j].id != k
    ensures k in PutAll(m, us) <==> k in m
    ensures k in m ==> PutAll(m, us)[k] == m[k]
    decreases |us|
  {
    if us != [] {
      assert us[0].id != k;
      PutAllUntouched(Put(m, us[0]), us[1..], k);
    }
  }

  /** Last-writer-wins over a history: the last record carrying an id is what the store holds for it. */
  lemma {:induction false} PutAllLastWriterWins(m: Store, us: seq<User>, i: nat)
    requires i < |us|
    requires forall j :: i < j < |us| ==> us[j].id != us[i].id
    ensures us[i].id in PutAll(m, us) && PutAll(m, us)[us[i].id] == us[i]
    decreases |us|
  {
    if i == 0 {
      PutAllUntouched(Put(m, us[0]), us[1..], us[0].id);
    } else {
      PutAllLastWriterWins(Put(m, us[0]), us[1..], i - 1);
    }
  }

  /** The position of the last record carrying `k`, or -1 when none does. */
  function LastIndexOf(us: seq<User>, k: string): (i: int)
    ensures -1 <= i < |us|
    ensures 0 <= i ==> us[i].id == k
    ensures forall j :: i < j < |us| ==> us[j].id != k
    decreases |us|
  {
    if us == [] then -1
    else if us[|us| - 1].id == k then |us| - 1
    else LastIndexOf(us[..|us| - 1], k)
  }

  /** Redelivering a whole history on top of its own result changes nothing (at-least-once delivery is harmless). */
  lemma PutAllReplay(m: Store, us: seq<User>)
    ensures PutAll(PutAll(m, us), us) == PutAll(m, us)
  {
    var r := PutAll(m, us);
    forall k
      ensures k in PutAll(r, us) <==> k in r
      ensures k in r ==> PutAll(r, us)[k] == r[k]
    {
      var i := LastIndexOf(us, k);
      if 0 <= i {
        PutAllLastWriterWins(m, us, i);
        PutAllLastWriterWins(r, us, i);
      } else {
        PutAllUntouched(r, us, k);
      }
    }
  }

  lemma {:induction false} PutAllKeepsKeyed(m: Store, us: seq<User>)
    requires Keyed(m)
    ensures Keyed(PutAll(m, us))
    decreases |us|
  {
    if us != [] {
      PutKeepsKeyed(m, us[0]);
      PutAllKeepsKeyed(Put(m, us[0]), us[1..]);
    }
  }
}
