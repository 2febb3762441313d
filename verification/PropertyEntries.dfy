/**
  The property list as a sequence of entries.  A search matches the first entry whose name starts
  with what is searched for, so the list works as a map only because of an order on its names.
 */
module PropertyEntries {
  import opened Sequences
  import opened Wrappers

  /** `property_unit` */
  datatype Entry = Entry(name: string, value: string, callback: bool)

  /** `strncmp(e.name, search, strlen(search)) == 0` */
  predicate Matches(e: Entry, search: string) {
    search <= e.name
  }

  /** The index of the first entry that matches, or the length of the list. */
  function Lookup(es: seq<Entry>, search: string): (k: nat)
    ensures k <= |es| && (k < |es| ==> Matches(es[k], search))
    ensures forall i :: 0 <= i < k ==> !Matches(es[i], search)
  {
    if es == [] || Matches(es[0], search) then 0 else 1 + Lookup(es[1..], search)
  }

  function Get(es: seq<Entry>, search: string): Option<string> {
    var k := Lookup(es, search);
    if k < |es| then Some(es[k].value) else None
  }

  function Added(es: seq<Entry>, e: Entry): seq<Entry> {
    if Lookup(es, e.name) < |es| then es else es + [e]
  }

  function Updated(es: seq<Entry>, name: string, value: string): seq<Entry> {
    var k := Lookup(es, name);
    if k < |es| then es[k := es[k].(value := value)] else es + [Entry(name, value, false)]
  }

  function Removed(es: seq<Entry>, name: string): seq<Entry> {
    var k := Lookup(es, name);
    if k < |es| then Without(es, k) else es
  }

  /** A search matches the names that start with it. */
  lemma MatchesIs(e: Entry, search: string)
    ensures Matches(e, search) <==> exists rest :: e.name == search + rest
  {
    if Matches(e, search) {
      assert e.name == search + e.name[|search|..];
    }
  }

  /** `k` is the first entry whose name starts with what is searched for, or the length of the list. */
  ghost predicate IsFirst(es: seq<Entry>, search: string, k: nat) {
    && k <= |es| && (k < |es| ==> search <= es[k].name)
    && forall j :: 0 <= j < k ==> !(search <= es[j].name)
  }

  lemma FirstIsFound(es: seq<Entry>, search: string, k: nat)
    requires IsFirst(es, search, k)
    ensures Lookup(es, search) == k
  {
    LookupIs(es, search, k);
  }

  /** Adding appends the entry, or does nothing if its name starts a name in the list. */
  lemma AddedIs(es: seq<Entry>, e: Entry, k: nat)
    requires IsFirst(es, e.name, k)
    ensures Added(es, e) == if k < |es| then es else es + [e]
  {
    FirstIsFound(es, e.name, k);
  }

  /** Setting changes the value of the first entry that matches, and nothing else, or appends one. */
  lemma UpdatedIs(es: seq<Entry>, name: string, value: string, k: nat)
    requires IsFirst(es, name, k)
    ensures Updated(es, name, value)
         == if k < |es| then es[..k] + [Entry(es[k].name, value, es[k].callback)] + es[k + 1..]
            else es + [Entry(name, value, false)]
  {
    FirstIsFound(es, name, k);
  }

  /** Removing takes out the first entry that matches, and nothing else. */
  lemma RemovedIs(es: seq<Entry>, name: string, k: nat)
    requires IsFirst(es, name, k)
    ensures Removed(es, name) == if k < |es| then es[..k] + es[k + 1..] else es
  {
    FirstIsFound(es, name, k);
  }

  /** In an ordered list a name that is removed is found no more, unless a later name starts with it. */
  lemma RemovedIsGone(es: seq<Entry>, i: nat)
    requires Ordered(es) && i < |es|
    ensures Get(Removed(es, es[i].name), es[i].name) == None <==>
              forall j :: i < j < |es| ==> !(es[i].name <= es[j].name)
  {
    var name, rs := es[i].name, Removed(es, es[i].name);
    LookupIs(es, name, i);
    WithoutAt(es, i);
    forall j | i < j < |es| ensures rs[j - 1] == es[j] {}
  }

  /** No earlier name starts with a later one. */
  ghost predicate Ordered(es: seq<Entry>) {
    forall i, j :: 0 <= i < j < |es| ==> !Matches(es[i], es[j].name)
  }

  lemma LookupIs(es: seq<Entry>, search: string, k: nat)
    requires k <= |es| && (k < |es| ==> Matches(es[k], search))
    requires forall i :: 0 <= i < k ==> !Matches(es[i], search)
    ensures Lookup(es, search) == k
  {}

  lemma OrderedAdded(es: seq<Entry>, e: Entry)
    requires Ordered(es)
    ensures Ordered(Added(es, e))
  {}

  lemma OrderedUpdated(es: seq<Entry>, name: string, value: string)
    requires Ordered(es)
    ensures Ordered(Updated(es, name, value))
  {}

  lemma OrderedRemoved(es: seq<Entry>, name: string)
    requires Ordered(es)
    ensures Ordered(Removed(es, name))
  {
    if Lookup(es, name) < |es| {
      hide Matches, Without;
      WithoutAt(es, Lookup(es, name));
    }
  }

  /** The order is exactly what makes every entry reachable under its own name. */
  lemma OrderedMeansReachable(es: seq<Entry>)
    ensures Ordered(es) <==> forall i {:trigger es[i]} :: 0 <= i < |es| ==> Lookup(es, es[i].name) == i
  {
    if Ordered(es) {
      forall i | 0 <= i < |es| ensures Lookup(es, es[i].name) == i {
        LookupIs(es, es[i].name, i);
      }
    }
  }

  /** What has been set is what is found, whatever the name and whatever is in the list. */
  lemma GetAfterSet(es: seq<Entry>, name: string, value: string)
    ensures Get(Updated(es, name, value), name) == Some(value)
  {
    var k := Lookup(es, name);
    LookupIs(Updated(es, name, value), name, k);
  }

  /** A search that found another entry than the one that is set finds the same as before. */
  lemma SetKeepsOthers(es: seq<Entry>, name: string, value: string, search: string)
    requires Lookup(es, search) < |es|
    ensures var k, us := Lookup(es, search), Updated(es, name, value);
            && Lookup(us, search) == k && us[k].name == es[k].name
            && us[k].value == if k == Lookup(es, name) then value else es[k].value
  {
    LookupIs(Updated(es, name, value), search, Lookup(es, search));
  }

  /** A search that found nothing finds the new entry exactly if its name starts so. */
  lemma SetAnswersSearches(es: seq<Entry>, name: string, value: string, search: string)
    requires Lookup(es, search) == |es|
    ensures Get(Updated(es, name, value), search)
         == if search <= name && Lookup(es, name) == |es| then Some(value) else None
  {
    var us := Updated(es, name, value);
    LookupIs(us, search, if search <= name && Lookup(es, name) == |es| then |es| else |us|);
  }

  /** Removing an entry hides no other: the rest of an ordered list stays reachable. */
  lemma RemoveKeepsOthers(es: seq<Entry>, name: string, i: nat)
    requires Ordered(es) && i < |es| && i != Lookup(es, name)
    ensures Get(Removed(es, name), es[i].name) == Some(es[i].value)
  {
    var k, rs := Lookup(es, name), Removed(es, name);
    assert Matches(es[i], es[i].name);
    if k < |es| {
      hide Matches, Without, Lookup;
      WithoutAt(es, k);
      LookupIs(rs, es[i].name, if k < i then i - 1 else i);
    } else {
      LookupIs(es, es[i].name, i);
    }
  }

  // ------------------------------------------------------------------------------------------
  // Adding one by one

  function AddAll(es: seq<Entry>, more: seq<Entry>): seq<Entry>
    decreases |more|
  {
    if more == [] then es else AddAll(Added(es, more[0]), more[1..])
  }

  lemma {:induction false} AddAllBounds(es: seq<Entry>, more: seq<Entry>)
    ensures es <= AddAll(es, more) && |AddAll(es, more)| <= |es| + |more|
    decreases |more|
  {
    if more != [] {
      AddAllBounds(Added(es, more[0]), more[1..]);
    }
  }

  lemma {:induction false} AddAllAddsOnly(es: seq<Entry>, more: seq<Entry>)
    ensures forall e :: e in AddAll(es, more) ==> e in es || e in more
    decreases |more|
  {
    if more != [] {
      AddAllAddsOnly(Added(es, more[0]), more[1..]);
    }
  }

  lemma LostIsUnordered(es: seq<Entry>, more: seq<Entry>)
    requires more != [] && Lookup(es, more[0].name) < |es|
    ensures !Ordered(es + more)
  {
    assert Matches((es + more)[Lookup(es, more[0].name)], (es + more)[|es|].name);
  }

  /** Entries are lost on the way exactly if the result would not be ordered. */
  lemma {:induction false} AddAllKeepsAll(es: seq<Entry>, more: seq<Entry>)
    requires Ordered(es)
    ensures AddAll(es, more) == es + more <==> Ordered(es + more)
    ensures |AddAll(es, more)| == |es| + |more| ==> AddAll(es, more) == es + more
    ensures Ordered(AddAll(es, more))
    decreases |more|
  {
    hide Ordered, Matches;
    if more == [] {
      assert es + more == es;
    } else {
      OrderedAdded(es, more[0]);
      AddAllKeepsAll(Added(es, more[0]), more[1..]);
      if Lookup(es, more[0].name) < |es| {
        AddAllBounds(es, more[1..]);
        LostIsUnordered(es, more);
      } else {
        FirstIntoSecond(es, more);
      }
    }
  }
}
