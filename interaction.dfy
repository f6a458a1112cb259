/**
 * The like / retweet toggle on a list of user ids: a present id is removed
 * (every occurrence, as `filter` does), an absent one is appended (as `push`
 * does). The tweet-level update and the counters live in the store.
 */
module Interaction {
  import opened Models

  /** `ids.filter(uid => uid !== id)`: every occurrence of `id` removed, the rest kept in order. */
  function RemoveAll(ids: seq<UserId>, id: UserId): (r: seq<UserId>)
    ensures forall x :: x in r <==> x in ids && x != id
    ensures forall x :: x != id ==> multiset(r)[x] == multiset(ids)[x]
    ensures |r| == |ids| - multiset(ids)[id]
  {
    if ids == [] then []
    else
      assert ids == [ids[0]] + ids[1..];
      if ids[0] == id then RemoveAll(ids[1..], id)
      else [ids[0]] + RemoveAll(ids[1..], id)
  }

  /** The toggle of `id` in `ids`. */
  function Toggled(ids: seq<UserId>, id: UserId): (r: seq<UserId>)
    ensures id in r <==> id !in ids
    ensures forall x :: x != id ==> (x in r <==> x in ids)
  {
    if id in ids then RemoveAll(ids, id) else ids + [id]
  }

  /** With at most one occurrence per id, a toggle changes the length by exactly one. */
  lemma ToggledLength(ids: seq<UserId>, id: UserId)
    requires NoDup(ids)
    ensures |Toggled(ids, id)| == if id in ids then |ids| - 1 else |ids| + 1
  {
    if id in ids {
      NoDupCountsOne(ids, id);
    }
  }

  /** In a list without duplicates, a present id occurs exactly once. */
  lemma {:induction false} NoDupCountsOne(ids: seq<UserId>, id: UserId)
    requires NoDup(ids) && id in ids
    ensures multiset(ids)[id] == 1
  {
    assert ids == [ids[0]] + ids[1..];
    if ids[0] == id {
      assert id !in ids[1..];
    } else {
      NoDupCountsOne(ids[1..], id);
    }
  }

  /** Removing every occurrence keeps a list free of duplicates. */
  lemma {:induction false} RemoveAllKeepsNoDup(ids: seq<UserId>, id: UserId)
    requires NoDup(ids)
    ensures NoDup(RemoveAll(ids, id))
  {
    if ids != [] {
      RemoveAllKeepsNoDup(ids[1..], id);
      if ids[0] != id {
        var rest := RemoveAll(ids[1..], id);
        assert ids[0] !in ids[1..];
        assert multiset(rest)[ids[0]] == multiset(ids[1..])[ids[0]] == 0;
        assert ids[0] !in rest;
      }
    }
  }

  /** A toggle never introduces a duplicate id. */
  lemma ToggleKeepsNoDup(ids: seq<UserId>, id: UserId)
    requires NoDup(ids)
    ensures NoDup(Toggled(ids, id))
  {
    if id in ids {
      RemoveAllKeepsNoDup(ids, id);
    }
  }

  /** Toggling twice with the same id restores every id's membership. */
  lemma ToggleTwiceRestoresMembership(ids: seq<UserId>, id: UserId)
    ensures forall x :: x in Toggled(Toggled(ids, id), id) <==> x in ids
  {
  }

  /** When the id was absent, toggling twice restores the exact list. */
  lemma ToggleTwiceRestoresAbsent(ids: seq<UserId>, id: UserId)
    requires id !in ids
    ensures Toggled(Toggled(ids, id), id) == ids
  {
    RemoveAllOfAbsent(ids, id);
    assert RemoveAll(ids + [id], id) == RemoveAll(ids, id) + RemoveAll([id], id) by {
      RemoveAllAppend(ids, [id], id);
    }
  }

  /** Removing an id that does not occur changes nothing. */
  lemma {:induction false} RemoveAllOfAbsent(ids: seq<UserId>, id: UserId)
    requires id !in ids
    ensures RemoveAll(ids, id) == ids
  {
    if ids != [] {
      RemoveAllOfAbsent(ids[1..], id);
    }
  }

  /** `filter` distributes over concatenation. */
  lemma {:induction false} RemoveAllAppend(a: seq<UserId>, b: seq<UserId>, id: UserId)
    ensures RemoveAll(a + b, id) == RemoveAll(a, id) + RemoveAll(b, id)
  {
    if a != [] {
      assert (a + b)[1..] == a[1..] + b;
      RemoveAllAppend(a[1..], b, id);
    } else {
      assert a + b == b;
    }
  }

  /** The list after a sequence of toggles, applied left to right. */
  function ToggleAll(ids: seq<UserId>, togglers: seq<UserId>): (r: seq<UserId>)
    decreases |togglers|
  {
    if togglers == [] then ids
    else ToggleAll(Toggled(ids, togglers[0]), togglers[1..])
  }

  /**
   * After any sequence of toggles an id is present exactly when it was
   * present initially xor it toggled an odd number of times, so membership
   * does not depend on the order of the toggles.
   */
  lemma {:induction false} ToggleAllParity(ids: seq<UserId>, togglers: seq<UserId>, x: UserId)
    ensures x in ToggleAll(ids, togglers) <==> ((x in ids) != (multiset(togglers)[x] % 2 == 1))
    decreases |togglers|
  {
    if togglers != [] {
      var first, rest := togglers[0], togglers[1..];
      assert togglers == [first] + rest;
      var m := multiset(rest)[x];
      assert multiset(togglers)[x] == m + (if x == first then 1 else 0);
      assert (m + 1) % 2 == 1 <==> m % 2 != 1;
      ToggleAllParity(Toggled(ids, first), rest, x);
    }
  }

  /**
   * Distinct users who have not yet liked a tweet each toggle once: every
   * one of them ends up in the list, after the earlier ids, and the list
   * grows by their number.
   */
  lemma {:induction false} DistinctNewTogglers(ids: seq<UserId>, togglers: seq<UserId>)
    requires NoDup(togglers)
    requires forall x :: x in togglers ==> x !in ids
    ensures ToggleAll(ids, togglers) == ids + togglers
    ensures NoDup(ids) ==> NoDup(ToggleAll(ids, togglers))
    ensures |ToggleAll(ids, togglers)| == |ids| + |togglers|
    decreases |togglers|
  {
    if togglers != [] {
      var next := ids + [togglers[0]];
      assert Toggled(ids, togglers[0]) == next;
      forall x | x in togglers[1..] ensures x !in next {
        assert x != togglers[0];
      }
      DistinctNewTogglers(next, togglers[1..]);
      assert next + togglers[1..] == ids + togglers;
      if NoDup(ids) {
        ToggleKeepsNoDup(ids, togglers[0]);
      }
    }
  }

  /**
   * Starting from no likes, user `a` likes, user `b` likes and `a` likes
   * again: only `b` remains and the count is one.
   */
  lemma LikeUnlikeScenario(a: UserId, b: UserId)
    requires a != b
    ensures ToggleAll([], [a, b, a]) == [b]
    ensures |ToggleAll([], [a, b, a])| == 1
  {
    assert Toggled([], a) == [a];
    assert Toggled([a], b) == [a, b];
    assert RemoveAll([b], a) == [b] by {
      assert RemoveAll([], a) == [];
    }
    assert RemoveAll([a, b], a) == [b];
    assert Toggled([a, b], a) == [b];
    assert [a, b, a][1..] == [b, a] && [b, a][1..] == [a] && [a][1..] == [];
    assert ToggleAll([b], []) == [b];
    assert ToggleAll([a, b], [a]) == [b];
    assert ToggleAll([a], [b, a]) == [b];
  }
}
