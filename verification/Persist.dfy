/**
  The property list on disk: one line of at most 79 characters for each entry, with commas between
  the fields.  A string is a C string without its terminator.
 */
module Persist {
  import opened PropertyEntries
  import opened PropertyList

  const MAX_ALLOWED_LINE_LEN := 80
  const MAX_PROPERTY_ITER := 3

  /** `strchr`: the index of the first `c`, or the length of the string. */
  function IndexOf(s: string, c: char): (k: nat)
    ensures k <= |s| && (k < |s| ==> s[k] == c) && forall i :: 0 <= i < k ==> s[i] != c
  {
    if s == [] || s[0] == c then 0 else 1 + IndexOf(s[1..], c)
  }

  lemma IndexOfIs(s: string, c: char, k: nat)
    requires k <= |s| && (k < |s| ==> s[k] == c) && c !in s[..k]
    ensures IndexOf(s, c) == k
  {
    assert forall i :: 0 <= i < k ==> s[i] == s[..k][i];
  }

  function Capped(s: string): (r: string)
    ensures |r| < MAX_ALLOWED_LINE_LEN && r <= s
  {
    if |s| < MAX_ALLOWED_LINE_LEN then s else s[..MAX_ALLOWED_LINE_LEN - 1]
  }

  // ------------------------------------------------------------------------------------------
  // Writing

  /** The line of an entry; `text` is what is printed for the third field. */
  function Line(e: Entry, text: bool -> string): string {
    Capped(e.name + "," + e.value + "," + text(e.callback) + "\n")
  }

  /** It is cut off behind 79 characters. */
  lemma LineIs(e: Entry, text: bool -> string)
    ensures var full := e.name + "," + e.value + "," + text(e.callback) + "\n";
            Line(e, text) <= full && |Line(e, text)| == if |full| < 80 then |full| else 79
  {}

  function File(es: seq<Entry>, text: bool -> string): string {
    if es == [] then [] else Line(es[0], text) + File(es[1..], text)
  }

  lemma {:induction false} FileConcat(a: seq<Entry>, b: seq<Entry>, text: bool -> string)
    ensures File(a + b, text) == File(a, text) + File(b, text)
    decreases |a|
  {
    if a == [] {
      assert a + b == b;
    } else {
      assert (a + b)[1..] == a[1..] + b;
      FileConcat(a[1..], b, text);
    }
  }

  lemma FileNext(es: seq<Entry>, k: nat, text: bool -> string)
    requires k < |es|
    ensures File(es[..k + 1], text) == File(es[..k], text) + Line(es[k], text)
  {
    FileConcat(es[..k], [es[k]], text);
    assert es[..k + 1] == es[..k] + [es[k]] && [es[k]][1..] == [];
  }

  lemma NoFile(text: bool -> string)
    ensures File([], text) == ""
  {}

  /**
    `save_ds_to_persist`.  The file may fail to open, and the write number `fault` may fail; then
    the lines before are in the file, and the result is false.
   */
  method SaveDsToPersist(list: List, text: bool -> string, before: string, opens: bool, fault: nat)
    returns (written: bool, file: string)
    requires list.Valid()
    ensures !opens ==> !written && file == before
    ensures opens ==> var es := list.Entries();
              && written == (es != [] && |es| <= fault)
              && file == File(if |es| <= fault then es else es[..fault], text)
  {
    hide File, Line, Stored, Distinct, Units;
    written, file := false, before;
    if opens {
      var ln := list.head;
      NoFile(text);
      file := "";
      ghost var es := list.Entries();
      var k := 0;
      while ln != null
        invariant k <= |es| && k <= fault && ln == NodeAt(list.nodes, k)
        invariant file == File(es[..k], text) && written == (k > 0)
        decreases |es| - k
      {
        var line := Line(ln.unit, text);
        if k == fault {
          return false, file;
        }
        FileNext(es, k, text);
        file := file + line;
        written := true;
        ln, k := ln.next, k + 1;
      }
      assert es[..k] == es;
    }
  }

  // ------------------------------------------------------------------------------------------
  // Reading

  /** `fgets` */
  function FirstLine(file: string): (line: string)
    ensures |line| < MAX_ALLOWED_LINE_LEN && line <= file && (file != [] ==> line != [])
  {
    var n := IndexOf(file, '\n');
    Capped(if n < |file| then file[..n + 1] else file)
  }

  /** A line ends behind the first newline, after 79 characters, or with the file. */
  lemma FirstLineIs(file: string)
    requires file != []
    ensures var line := FirstLine(file);
            && line <= file && 0 < |line| <= 79 && '\n' !in line[..|line| - 1]
            && (line[|line| - 1] != '\n' ==> |line| == 79 || line == file)
  {
    var line := FirstLine(file);
    assert forall i :: 0 <= i < |line| - 1 ==> line[i] == file[i] != '\n';
  }

  /** The name ends at the first comma, and the value at the second. */
  function Pull(line: string): Entry {
    var i := IndexOf(line, ',');
    if i == |line| then Entry("", "", false)
    else
      var j := IndexOf(line[i + 1..], ',');
      Entry(line[..i], if j == |line[i + 1..]| then "" else line[i + 1..][..j], false)
  }

  function Pulled(file: string): seq<Entry>
    decreases |file|
  {
    if file == [] then [] else [Pull(FirstLine(file))] + Pulled(file[|FirstLine(file)|..])
  }

  /** `__pull_one_line_data` */
  method PullOneLineData(line: string) returns (extracted: Node)
    requires |line| < MAX_ALLOWED_LINE_LEN
    ensures fresh(extracted) && extracted.next == null && extracted.unit == Pull(line)
  {
    extracted := new Node(Entry("", "", false));
    var currLinePtr: nat, field: nat := 0, 0;
    while field < MAX_PROPERTY_ITER
      invariant 0 <= field <= MAX_PROPERTY_ITER && currLinePtr <= |line|
      invariant fresh(extracted) && extracted.next == null
      invariant field == 0 ==> currLinePtr == 0 && extracted.unit == Entry("", "", false)
      invariant field == 1 ==>
                  && currLinePtr == IndexOf(line, ',') + 1
                  && extracted.unit == Entry(line[..currLinePtr - 1], "", false)
      invariant field >= 2 ==> extracted.unit == Pull(line)
    {
      var currLine := line[currLinePtr..];
      var currLength := IndexOf(currLine, ',');
      if currLength == |currLine| {
        return;
      }
      if field == 0 {
        extracted.unit := extracted.unit.(name := Copied(currLine, currLength));
      } else if field == 1 {
        extracted.unit := extracted.unit.(value := Copied(currLine, currLength));
      }
      currLinePtr := currLinePtr + currLength + 1;
      field := field + 1;
    }
  }

  /** `strlcpy`, of no more than a line. */
  function Copied(s: string, length: nat): string
    requires length <= |s|
  {
    s[..if length > MAX_ALLOWED_LINE_LEN then MAX_ALLOWED_LINE_LEN else length]
  }

  /** `__search_and_add_property_val`, which reports failure whatever it has done. */
  method SearchAndAddPropertyVal(list: List, file: string) returns (status: bool)
    requires list.Valid()
    modifies list, list.Repr
    ensures list.Valid() && !status && fresh(list.Repr - old(list.Repr))
    ensures list.Entries() == AddAll(old(list.Entries()), Pulled(file))
  {
    hide Stored, Storable, Linked, Units, Pull, FirstLine, Lookup, Added, AddAll, Pulled;
    status := false;
    var pos := 0;
    assert file[0..] == file;
    while pos < |file|
      invariant pos <= |file| && list.Valid() && !status && fresh(list.Repr - old(list.Repr))
      invariant AddAll(old(list.Entries()), Pulled(file)) == AddAll(list.Entries(), Pulled(file[pos..]))
    {
      PullsFirst(list.Entries(), file, pos);
      var line := FirstLine(file[pos..]);
      var extracted := PullOneLineData(line);
      status := list.Add(extracted);
      pos := pos + |line|;
    }
    assert file[pos..] == "";
    PullsNothing(list.Entries());
  }

  lemma PullsFirst(es: seq<Entry>, file: string, pos: nat)
    requires pos < |file|
    ensures var line := FirstLine(file[pos..]);
            && 0 < |line| < MAX_ALLOWED_LINE_LEN && pos + |line| <= |file| && Storable([Pull(line)])
            && AddAll(es, Pulled(file[pos..])) == AddAll(Added(es, Pull(line)), Pulled(file[pos + |line|..]))
  {
    var line := FirstLine(file[pos..]);
    assert file[pos..][|line|..] == file[pos + |line|..];
    PullFits(line);
  }

  lemma PullsNothing(es: seq<Entry>)
    ensures AddAll(es, Pulled("")) == es
  {}

  lemma PullFits(line: string)
    requires |line| < MAX_ALLOWED_LINE_LEN
    ensures Storable([Pull(line)])
  {}

  // ------------------------------------------------------------------------------------------
  // Round trip

  /** No separator in the strings of the entry. */
  predicate Clean(e: Entry) {
    ',' !in e.name && '\n' !in e.name && ',' !in e.value && '\n' !in e.value
  }

  /** Both commas are within the line, or there is nothing between them to lose. */
  predicate FitsLine(e: Entry) {
    |e.name| + |e.value| + 2 < 80 || (e.value == "" && |e.name| + 1 < 80)
  }

  /** What is kept of an entry: its name and its value. */
  function Kept(e: Entry): Entry { e.(callback := false) }

  lemma PullBoth(a: string, b: string, rest: string)
    requires ',' !in a && ',' !in b
    ensures Pull(a + "," + b + "," + rest) == Entry(a, b, false)
  {
    var line := a + "," + b + "," + rest;
    IndexOfIs(line, ',', |a|);
    var tail := line[|a| + 1..];
    assert tail == b + "," + rest && tail[..|b|] == b;
    IndexOfIs(tail, ',', |b|);
  }

  lemma PullName(a: string, b: string)
    requires ',' !in a && ',' !in b
    ensures Pull(a + "," + b) == Entry(a, "", false)
  {
    var line := a + "," + b;
    IndexOfIs(line, ',', |a|);
    assert line[|a| + 1..] == b;
    IndexOfIs(b, ',', |b|);
  }

  lemma PullNeither(a: string)
    requires ',' !in a
    ensures Pull(a) == Entry("", "", false)
  {
    IndexOfIs(a, ',', |a|);
  }

  /** A line gives name and value back exactly if they fit. */
  lemma PullLine(e: Entry, text: bool -> string)
    requires Clean(e)
    ensures Pull(Line(e, text)) == Kept(e) <==> FitsLine(e)
  {
    hide Pull;
    var line, n, v := Line(e, text), |e.name|, |e.value|;
    if n + v + 2 <= |line| {
      var rest := line[n + v + 2..];
      assert line == e.name + "," + e.value + "," + rest;
      PullBoth(e.name, e.value, rest);
    } else if n + 1 <= |line| {
      var rest := line[n + 1..];
      assert line == e.name + "," + rest && rest == e.value[..|rest|];
      PullName(e.name, rest);
    } else {
      assert line == e.name[..|line|];
      PullNeither(line);
    }
  }

  /** `fgets` reads back the lines as they were written, also those that were cut off. */
  lemma FirstLineOf(e: Entry, text: bool -> string, rest: string)
    requires Clean(e) && '\n' !in text(e.callback)
    ensures FirstLine(Line(e, text) + rest) == Line(e, text)
  {
    var full, line := e.name + "," + e.value + "," + text(e.callback), Line(e, text);
    var file := line + rest;
    if |full| + 1 < MAX_ALLOWED_LINE_LEN {
      assert file[..|full|] == full;
      IndexOfIs(file, '\n', |full|);
      assert file[..|full| + 1] == line;
    } else {
      assert line == full[..|line|] && line == file[..|line|];
      assert '\n' !in file[..|line|];
    }
  }

  function Pulls(es: seq<Entry>, text: bool -> string): (ps: seq<Entry>)
    ensures |ps| == |es| && forall i :: 0 <= i < |es| ==> ps[i] == Pull(Line(es[i], text))
  {
    if es == [] then [] else [Pull(Line(es[0], text))] + Pulls(es[1..], text)
  }

  /** Entries without a separator, whose third field prints without a newline. */
  ghost predicate AllClean(es: seq<Entry>, text: bool -> string) {
    forall e :: e in es ==> Clean(e) && '\n' !in text(e.callback)
  }

  lemma {:induction false} PulledFile(es: seq<Entry>, text: bool -> string)
    requires AllClean(es, text)
    ensures Pulled(File(es, text)) == Pulls(es, text)
  {
    if es != [] {
      hide Pull, Line, Clean, FirstLine;
      var line, rest := Line(es[0], text), File(es[1..], text);
      FirstLineOf(es[0], text, rest);
      assert (line + rest)[|line|..] == rest;
      LineIsSome(es[0], text);
      PulledFile(es[1..], text);
    }
  }

  lemma LineIsSome(e: Entry, text: bool -> string)
    ensures Line(e, text) != ""
  {}

  function AllKept(es: seq<Entry>): (ks: seq<Entry>)
    ensures |ks| == |es| && forall i :: 0 <= i < |es| ==> ks[i] == Kept(es[i])
  {
    if es == [] then [] else [Kept(es[0])] + AllKept(es[1..])
  }

  /** Whatever the file, no name and no value that is read from it has a separator. */
  lemma PullIsClean(file: string)
    ensures Clean(Pull(FirstLine(file)))
  {
    var line := FirstLine(file);
    assert forall i :: 0 <= i < |line| - 1 ==> line[i] == file[i] != '\n';
    var i := IndexOf(line, ',');
    if i < |line| {
      var tail := line[i + 1..];
      var j := IndexOf(tail, ',');
      assert forall k :: 0 <= k < |tail| ==> tail[k] == line[i + 1 + k];
    }
  }

  lemma {:induction false} PulledAreClean(file: string)
    ensures forall e :: e in Pulled(file) ==> Clean(e)
    decreases |file|
  {
    if file != [] {
      hide Clean, Pull, FirstLine;
      PullIsClean(file);
      PulledAreClean(file[|FirstLine(file)|..]);
    }
  }

  lemma RoundTripIsClean(es: seq<Entry>, file: string)
    requires AddAll([], Pulled(file)) == AllKept(es)
    ensures forall e :: e in es ==> Clean(e)
  {
    hide Pulled, AddAll;
    PulledAreClean(file);
    AddAllAddsOnly([], Pulled(file));
    forall i | 0 <= i < |es| ensures Clean(es[i]) {
      assert AllKept(es)[i] in AllKept(es);
    }
  }

  /**
    Saving a list and loading it again gives the same names and values in the same order exactly if
    no name and no value has a separator and every entry fits into its line.
   */
  lemma RoundTrip(es: seq<Entry>, text: bool -> string)
    requires Ordered(es) && forall e :: e in es ==> '\n' !in text(e.callback)
    ensures AddAll([], Pulled(File(es, text))) == AllKept(es) <==> forall e :: e in es ==> Clean(e) && FitsLine(e)
  {
    hide Pulled, File, AddAll, Ordered, Clean, FitsLine;
    if AddAll([], Pulled(File(es, text))) == AllKept(es) {
      RoundTripIsClean(es, File(es, text));
    }
    if forall e :: e in es ==> Clean(e) {
      RoundTripOfClean(es, text);
    }
  }

  lemma RoundTripOfClean(es: seq<Entry>, text: bool -> string)
    requires Ordered(es) && AllClean(es, text)
    ensures AddAll([], Pulled(File(es, text))) == AllKept(es) <==> forall e :: e in es ==> FitsLine(e)
  {
    assert Ordered([]);
    hide Pulled, File, AddAll, Ordered, AllClean;
    PulledFile(es, text);
    PullsAreKept(es, text);
    AddAllKeepsAll([], Pulls(es, text));
    AddAllBounds([], Pulls(es, text));
    OrderedKept(es);
    assert [] + Pulls(es, text) == Pulls(es, text);
  }

  lemma PullsAreKept(es: seq<Entry>, text: bool -> string)
    requires AllClean(es, text)
    ensures Pulls(es, text) == AllKept(es) <==> forall e :: e in es ==> FitsLine(e)
  {
    hide Pull, Line, Clean, FitsLine;
    var ps, ks := Pulls(es, text), AllKept(es);
    forall i | 0 <= i < |es| ensures ps[i] == ks[i] <==> FitsLine(es[i]) {
      PullLine(es[i], text);
    }
  }

  lemma OrderedKept(es: seq<Entry>)
    requires Ordered(es)
    ensures Ordered(AllKept(es))
  {
    var ks := AllKept(es);
    forall i, j | 0 <= i < j < |ks| ensures !Matches(ks[i], ks[j].name) {
      assert !Matches(es[i], es[j].name);
    }
  }
}
