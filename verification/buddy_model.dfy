/** The buddy list model: a list of contacts, filtered by friendship and by a
    case-insensitive name substring, kept in comparator order by lower-bound
    insertion, and updated in place as the roster reports added and removed
    contacts or a finished sync. */
module Buddies {
  import opened Ordering
  import opened Text

  /** A contact as the buddy list sees it: its remote id, display name and
      friendship flag. */
  datatype Buddy = Buddy(id: int, name: string, isFriend: bool)

  /** The membership test: with friends-only on, a non-friend is rejected;
      otherwise an empty name filter accepts everyone, and a non-empty one
      accepts the names that contain it, ignoring case. */
  function CheckContact(friendsOnly: bool, filterByName: string, fold: char -> char, contact: Buddy): (ok: bool)
    ensures friendsOnly && !contact.isFriend ==> !ok
    ensures (!friendsOnly || contact.isFriend) && filterByName == [] ==> ok
    ensures (!friendsOnly || contact.isFriend) && filterByName != [] ==>
      (ok <==> exists i :: OccursAt(FoldCase(fold, contact.name), FoldCase(fold, filterByName), i))
  {
    if friendsOnly && !contact.isFriend then false
    else if filterByName != [] then
      Contains(FoldCase(fold, contact.name), FoldCase(fold, filterByName))
    else true
  }

  /** The test ignores case: two contacts with the same friend flag whose
      names fold alike get the same answer, whatever the folding. */
  lemma CheckContactIgnoresCase(friendsOnly: bool, filterByName: string, fold: char -> char, a: Buddy, b: Buddy)
    requires a.isFriend == b.isFriend && FoldCase(fold, a.name) == FoldCase(fold, b.name)
    ensures CheckContact(friendsOnly, filterByName, fold, a) == CheckContact(friendsOnly, filterByName, fold, b)
  {
  }

  /** Folding the filter beforehand changes no answer, given that folding an
      already folded character leaves it as it is. */
  lemma CheckContactFoldedFilter(friendsOnly: bool, filterByName: string, fold: char -> char, contact: Buddy)
    requires forall c :: fold(fold(c)) == fold(c)
    ensures CheckContact(friendsOnly, FoldCase(fold, filterByName), fold, contact) ==
            CheckContact(friendsOnly, filterByName, fold, contact)
  {
    FoldTwice(fold, filterByName);
  }

  /** `r` holds exactly the contacts of `s` that pass CheckContact, each as
      often as in `s`, in any order. */
  ghost predicate AcceptedOf(r: seq<Buddy>, friendsOnly: bool, filterByName: string, fold: char -> char, s: seq<Buddy>) {
    forall b :: multiset(r)[b] == (if CheckContact(friendsOnly, filterByName, fold, b) then multiset(s)[b] else 0)
  }

  /** The contacts of `s` that pass CheckContact, in their order in `s`. */
  function Filter(friendsOnly: bool, filterByName: string, fold: char -> char, s: seq<Buddy>): (r: seq<Buddy>)
    ensures AcceptedOf(r, friendsOnly, filterByName, fold, s)
    decreases |s|
  {
    if s == [] then []
    else
      var last := s[|s| - 1];
      var init := Filter(friendsOnly, filterByName, fold, s[..|s| - 1]);
      assert s == s[..|s| - 1] + [last];
      if CheckContact(friendsOnly, filterByName, fold, last) then init + [last] else init
  }

  /** The list a full re-filter of `roster` produces: its accepted contacts,
      each inserted at its lower bound in roster order. */
  function Rebuilt(less: (Buddy, Buddy) -> bool, friendsOnly: bool, filterByName: string,
                   fold: char -> char, roster: seq<Buddy>): seq<Buddy>
  {
    InsertAll(less, Filter(friendsOnly, filterByName, fold, roster))
  }

  /** A rebuilt list holds exactly the accepted roster contacts, each as often
      as in the roster, and is sorted when the comparator is a strict weak
      order. */
  lemma RebuiltIsFilteredAndSorted(less: (Buddy, Buddy) -> bool, friendsOnly: bool, filterByName: string,
                                   fold: char -> char, roster: seq<Buddy>)
    ensures AcceptedOf(Rebuilt(less, friendsOnly, filterByName, fold, roster), friendsOnly, filterByName, fold, roster)
    ensures StrictWeakOrder(less) ==> Sorted(less, Rebuilt(less, friendsOnly, filterByName, fold, roster))
  {
    if StrictWeakOrder(less) {
      InsertAllSorted(less, Filter(friendsOnly, filterByName, fold, roster));
    }
  }

  /** One step of the rebuild loop: the rebuild of a roster extended by one
      contact is the rebuild of the roster with that contact inserted at its
      lower bound when accepted, and unchanged otherwise. */
  lemma IncrementalAddMatchesRebuild(less: (Buddy, Buddy) -> bool, friendsOnly: bool,
                                     filterByName: string, fold: char -> char,
                                     roster: seq<Buddy>, contact: Buddy)
    ensures Rebuilt(less, friendsOnly, filterByName, fold, roster + [contact]) ==
      if CheckContact(friendsOnly, filterByName, fold, contact)
      then InsertSorted(less, Rebuilt(less, friendsOnly, filterByName, fold, roster), contact)
      else Rebuilt(less, friendsOnly, filterByName, fold, roster)
  {
    var s := roster + [contact];
    assert s[..|s| - 1] == roster;
    var f := Filter(friendsOnly, filterByName, fold, roster);
    if CheckContact(friendsOnly, filterByName, fold, contact) {
      var g := f + [contact];
      assert g[..|g| - 1] == f;
    }
  }

  /** The rebuild loop's step at index `i`: the rebuild of the first i + 1
      roster contacts is the rebuild of the first i with contact i inserted
      at its lower bound when accepted. */
  lemma RebuildStep(less: (Buddy, Buddy) -> bool, friendsOnly: bool, filterByName: string,
                    fold: char -> char, roster: seq<Buddy>, i: nat)
    requires i < |roster|
    ensures Rebuilt(less, friendsOnly, filterByName, fold, roster[..i + 1]) ==
      if CheckContact(friendsOnly, filterByName, fold, roster[i])
      then InsertSorted(less, Rebuilt(less, friendsOnly, filterByName, fold, roster[..i]), roster[i])
      else Rebuilt(less, friendsOnly, filterByName, fold, roster[..i])
  {
    assert roster[..i + 1] == roster[..i] + [roster[i]];
    IncrementalAddMatchesRebuild(less, friendsOnly, filterByName, fold, roster[..i], roster[i]);
  }

  /** A list that is the rebuild of a roster, handled as addBuddy handles a
      newly added contact, is the rebuild of the roster with that contact
      appended. */
  lemma AddedContactRebuilds(less: (Buddy, Buddy) -> bool, friendsOnly: bool, filterByName: string,
                             fold: char -> char, roster: seq<Buddy>, contact: Buddy,
                             before: seq<Buddy>, after: seq<Buddy>)
    requires before == Rebuilt(less, friendsOnly, filterByName, fold, roster)
    requires after == if CheckContact(friendsOnly, filterByName, fold, contact)
                      then InsertSorted(less, before, contact) else before
    ensures after == Rebuilt(less, friendsOnly, filterByName, fold, roster + [contact])
  {
    IncrementalAddMatchesRebuild(less, friendsOnly, filterByName, fold, roster, contact);
  }

  /** The index of the first contact with the given id, or -1 when there is
      none. */
  function IndexOfId(s: seq<Buddy>, id: int): (k: int)
    ensures -1 <= k < |s|
    ensures k == -1 <==> forall i :: 0 <= i < |s| ==> s[i].id != id
    ensures 0 <= k ==> s[k].id == id && forall i :: 0 <= i < k ==> s[i].id != id
    decreases |s|
  {
    if s == [] then -1
    else if s[0].id == id then 0
    else
      var k := IndexOfId(s[1..], id);
      if k == -1 then -1 else k + 1
  }

  /** The roster whose contacts the model shows; only its current contact
      list matters here. */
  class Roster {
    var buddies: seq<Buddy>

    constructor (buddies: seq<Buddy>)
      ensures this.buddies == buddies
    {
      this.buddies := buddies;
    }
  }

  class BuddyModel {
    /** The sort comparator; its definition is not part of this model. */
    const less: (Buddy, Buddy) -> bool
    /** Per-character case folding for the name filter. */
    const fold: char -> char
    var friendsOnly: bool
    var filterByName: string
    var roster: Roster?
    var buddyList: seq<Buddy>

    /** A new model shows friends only, has no name filter, no roster and an
        empty list. */
    constructor (less: (Buddy, Buddy) -> bool, fold: char -> char)
      ensures this.less == less && this.fold == fold
      ensures friendsOnly && filterByName == [] && roster == null && buddyList == []
    {
      this.less := less;
      this.fold := fold;
      friendsOnly := true;
      filterByName := [];
      roster := null;
      buddyList := [];
    }

    /** The number of contacts the list shows. */
    function Count(): (n: nat)
      reads this
      ensures n == |buddyList|
    {
      |buddyList|
    }

    method Clear()
      modifies this`buddyList
      ensures buddyList == [] && Count() == 0
    {
      buddyList := [];
    }

    /** Replaces the list with `list` as given: no filtering, no sorting. */
    method SetBuddies(list: seq<Buddy>)
      modifies this`buddyList
      ensures buddyList == list && Count() == |list|
    {
      Clear();
      buddyList := list;
    }

    /** Binds the model to `r` and shows r's contact list as it is. */
    method SetRoster(r: Roster)
      modifies this`roster, this`buddyList
      ensures roster == r && buddyList == r.buddies
    {
      roster := r;
      SetBuddies(r.buddies);
    }

    /** On a finished sync the roster's contact list replaces the list as it
        is: no filtering, no sorting. */
    method OnSyncFinished()
      requires roster != null
      modifies this`buddyList
      ensures buddyList == roster.buddies && Count() == |roster.buddies|
    {
      SetBuddies(roster.buddies);
    }

    /** Linear scan for the first contact with the given id. */
    method FindContact(id: int) returns (index: int)
      ensures index == IndexOfId(buddyList, id)
    {
      var i := 0;
      while i != |buddyList|
        invariant 0 <= i <= |buddyList|
        invariant forall j :: 0 <= j < i ==> buddyList[j].id != id
      {
        if buddyList[i].id == id {
          return i;
        }
        i := i + 1;
      }
      return -1;
    }

    /** A contact the filter rejects is ignored; an accepted one is inserted
        at its lower bound under the comparator. */
    method AddBuddy(contact: Buddy)
      modifies this`buddyList
      ensures !CheckContact(friendsOnly, filterByName, fold, contact) ==> buddyList == old(buddyList)
      ensures CheckContact(friendsOnly, filterByName, fold, contact) ==>
        buddyList == InsertSorted(less, old(buddyList), contact)
      ensures StrictWeakOrder(less) && Sorted(less, old(buddyList)) ==> Sorted(less, buddyList)
      ensures roster != null && old(buddyList) == Rebuilt(less, friendsOnly, filterByName, fold, roster.buddies) ==>
        buddyList == Rebuilt(less, friendsOnly, filterByName, fold, roster.buddies + [contact])
    {
      if CheckContact(friendsOnly, filterByName, fold, contact) {
        buddyList := InsertAtLowerBound(less, buddyList, contact);
        if StrictWeakOrder(less) && Sorted(less, old(buddyList)) {
          InsertSortedKeepsSorted(less, old(buddyList), contact);
        }
      }
      if roster != null && old(buddyList) == Rebuilt(less, friendsOnly, filterByName, fold, roster.buddies) {
        AddedContactRebuilds(less, friendsOnly, filterByName, fold, roster.buddies, contact, old(buddyList), buddyList);
      }
    }

    /** Removes the first contact with the given id; does nothing when no
        contact has it. */
    method RemoveFriend(id: int)
      modifies this`buddyList
      ensures IndexOfId(old(buddyList), id) == -1 ==> buddyList == old(buddyList)
      ensures var k := IndexOfId(old(buddyList), id);
        k != -1 ==> buddyList == old(buddyList)[..k] + old(buddyList)[k + 1..]
      ensures Sorted(less, old(buddyList)) ==> Sorted(less, buddyList)
    {
      var index := FindContact(id);
      if index == -1 {
        return;
      }
      buddyList := buddyList[..index] + buddyList[index + 1..];
      if Sorted(less, old(buddyList)) {
        RemoveAtKeepsSorted(less, old(buddyList), index);
      }
    }

    /** Sets the name filter and rebuilds the list from the roster: each
        accepted roster contact, in roster order, is inserted at its lower
        bound into a fresh list. */
    method SetFilterByName(filter: string)
      requires roster != null
      modifies this`filterByName, this`buddyList
      ensures filterByName == filter
      ensures buddyList == Rebuilt(less, friendsOnly, filter, fold, roster.buddies)
      ensures AcceptedOf(buddyList, friendsOnly, filter, fold, roster.buddies)
      ensures StrictWeakOrder(less) ==> Sorted(less, buddyList)
    {
      filterByName := filter;
      var buddies := roster.buddies;
      var list: seq<Buddy> := [];
      var i := 0;
      while i < |buddies|
        invariant 0 <= i <= |buddies|
        invariant filterByName == filter
        invariant list == Rebuilt(less, friendsOnly, filter, fold, buddies[..i])
      {
        var buddy := buddies[i];
        RebuildStep(less, friendsOnly, filter, fold, buddies, i);
        if CheckContact(friendsOnly, filterByName, fold, buddy) {
          list := InsertAtLowerBound(less, list, buddy);
        }
        i := i + 1;
      }
      assert buddies[..i] == buddies;
      SetBuddies(list);
      RebuiltIsFilteredAndSorted(less, friendsOnly, filter, fold, buddies);
    }
  }
}
