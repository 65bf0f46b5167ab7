/** The wishlist: an array of book ids kept under the `wishlist` key of local storage.
    A click on a card's heart toggles the card's id in it; a card is drawn active
    when its id is in it. */
module Wishlist {
  import opened Js

  /** The list as the page reads it back, `JSON.parse(localStorage.getItem('wishlist')) || []`:
      a key that was never written reads as the empty list. */
  function Load(stored: Option<seq<int>>): (wishlist: seq<int>)
    ensures stored.None? ==> wishlist == []
    ensures stored.Some? ==> wishlist == stored.value
  {
    match stored
    case None => []
    case Some(ids) => ids
  }

  /** Reference meaning of one toggle: a present id loses its first occurrence,
      an absent id is added at the end. */
  function Toggled(wishlist: seq<int>, bookId: int): (toggled: seq<int>) {
    if bookId in wishlist then RemoveFirst(wishlist, bookId) else wishlist + [bookId]
  }

  class WishlistStore {
    /** The decoded `wishlist` entry of local storage; None while the key is absent. */
    var stored: Option<seq<int>>

    constructor (stored: Option<seq<int>>)
      ensures this.stored == stored
    {
      this.stored := stored;
    }

    function Wishlist(): (ids: seq<int>)
      reads this
    {
      Load(stored)
    }

    /** `isBookInWishlist`: whether the card for `bookId` is drawn active. */
    method IsBookInWishlist(bookId: int) returns (found: bool)
      ensures found <==> bookId in Wishlist()
      ensures stored.None? ==> !found
    {
      var wishlist := Load(stored);
      found := bookId in wishlist;
    }

    /** `toggleWishlist`: `indexOf` + `splice(index, 1)` when the id is present, `push`
        otherwise, then the list is written back. `active` is whether the heart is left
        marked active. */
    method ToggleWishlist(bookId: int) returns (active: bool)
      modifies this
      ensures stored == Some(Toggled(old(Wishlist()), bookId))
      ensures active <==> bookId !in old(Wishlist())
      ensures NoDuplicates(old(Wishlist())) ==>
                NoDuplicates(Wishlist()) && (active <==> bookId in Wishlist())
    {
      var wishlist := Load(stored);
      ghost var before := wishlist;
      if bookId in wishlist {
        var index := IndexOf(wishlist, bookId);
        wishlist := Splice(wishlist, index);
        SpliceAtIndexOf(before, bookId);
        active := false;
      } else {
        wishlist := wishlist + [bookId];
        active := true;
      }
      stored := Some(wishlist);
      TogglePreservesNoDuplicates(before, bookId);
      ToggleMembership(before, bookId);
    }
  }

  /** An absent id is appended: the list grows by one and every earlier entry keeps its place. */
  lemma ToggleAbsentAppends(wishlist: seq<int>, bookId: int)
    requires bookId !in wishlist
    ensures |Toggled(wishlist, bookId)| == |wishlist| + 1
    ensures Toggled(wishlist, bookId)[..|wishlist|] == wishlist
    ensures Toggled(wishlist, bookId)[|wishlist|] == bookId
  {
  }

  /** A present id loses its first occurrence only: the list shrinks by one and the other
      entries keep their relative order. */
  lemma ToggleRemovesFirstOccurrence(wishlist: seq<int>, bookId: int)
    requires bookId in wishlist
    ensures var i := IndexOf(wishlist, bookId);
              0 <= i && wishlist[i] == bookId && bookId !in wishlist[..i] &&
              Toggled(wishlist, bookId) == wishlist[..i] + wishlist[i + 1..]
    ensures |Toggled(wishlist, bookId)| == |wishlist| - 1
  {
    SpliceAtIndexOf(wishlist, bookId);
  }

  /** A toggle is a symmetric difference on the multiset of ids: one copy of `bookId`
      leaves or enters, nothing else changes. */
  lemma ToggleMultiset(wishlist: seq<int>, bookId: int)
    ensures multiset(Toggled(wishlist, bookId)) ==
              if bookId in wishlist then multiset(wishlist) - multiset{bookId}
              else multiset(wishlist) + multiset{bookId}
  {
    if bookId in wishlist {
      RemoveFirstMultiset(wishlist, bookId);
    }
  }

  /** Membership of every other id is unchanged; on a list without duplicates, membership
      of the toggled id flips. */
  lemma ToggleMembership(wishlist: seq<int>, bookId: int)
    ensures forall other :: other != bookId ==>
              (other in Toggled(wishlist, bookId) <==> other in wishlist)
    ensures NoDuplicates(wishlist) ==>
              (bookId in Toggled(wishlist, bookId) <==> bookId !in wishlist)
  {
    var t := Toggled(wishlist, bookId);
    ToggleMultiset(wishlist, bookId);
    forall other | other != bookId
      ensures other in t <==> other in wishlist
    {
      assert multiset(t)[other] == multiset(wishlist)[other];
    }
    if NoDuplicates(wishlist) && bookId in wishlist {
      OnlyOnce(wishlist, bookId);
      assert multiset(t)[bookId] == 0;
    }
  }

  /** In a list without duplicates every member occurs exactly once. */
  lemma {:induction false} OnlyOnce(s: seq<int>, x: int)
    requires NoDuplicates(s) && x in s
    ensures multiset(s)[x] == 1
  {
    if s[0] == x {
      assert s == [x] + s[1..];
      assert x !in s[1..];
    } else {
      assert s == [s[0]] + s[1..];
      OnlyOnce(s[1..], x);
    }
  }

  /** A wishlist without duplicates stays without duplicates. */
  lemma TogglePreservesNoDuplicates(wishlist: seq<int>, bookId: int)
    ensures NoDuplicates(wishlist) ==> NoDuplicates(Toggled(wishlist, bookId))
  {
    if NoDuplicates(wishlist) && bookId in wishlist {
      SpliceAtIndexOf(wishlist, bookId);
      var i := IndexOf(wishlist, bookId);
      var t := Toggled(wishlist, bookId);
      forall a, b | 0 <= a < b < |t| ensures t[a] != t[b] {
        var a' := if a < i then a else a + 1;
        var b' := if b < i then b else b + 1;
        assert t[a] == wishlist[a'] && t[b] == wishlist[b'];
      }
    }
  }

  /** Toggling an absent id twice gives back exactly the list it started from. */
  lemma ToggleTwiceFromAbsent(wishlist: seq<int>, bookId: int)
    requires bookId !in wishlist
    ensures Toggled(Toggled(wishlist, bookId), bookId) == wishlist
  {
    var t := wishlist + [bookId];
    IndexOfUnique(t, bookId, |wishlist|);
    SpliceAtIndexOf(t, bookId);
    assert Splice(t, |wishlist|) == wishlist;
  }

  /** Toggling a present id twice (on a list without duplicates) gives back the same ids,
      but the id has moved to the end. */
  lemma ToggleTwiceFromPresent(wishlist: seq<int>, bookId: int)
    requires NoDuplicates(wishlist) && bookId in wishlist
    ensures Toggled(Toggled(wishlist, bookId), bookId) == RemoveFirst(wishlist, bookId) + [bookId]
    ensures multiset(Toggled(Toggled(wishlist, bookId), bookId)) == multiset(wishlist)
  {
    var once := Toggled(wishlist, bookId);
    ToggleMembership(wishlist, bookId);
    assert bookId !in once;
    ToggleMultiset(wishlist, bookId);
    ToggleMultiset(once, bookId);
  }

  /** The order does change: `[1, 2]` toggled twice at `1` is `[2, 1]`. */
  lemma ToggleTwiceMovesToEnd()
    ensures Toggled(Toggled([1, 2], 1), 1) == [2, 1]
  {
    assert RemoveFirst([1, 2], 1) == [2];
  }

  /** Two clicks on the same heart with nothing stored: the id is added, then removed. */
  method ToggleTwiceOnEmptyStorage()
  {
    var store := new WishlistStore(None);
    var active := store.ToggleWishlist(2);
    assert active && store.Wishlist() == [2];
    active := store.ToggleWishlist(2);
    assert RemoveFirst([2], 2) == [];
    assert !active && store.Wishlist() == [];
  }
}
