/**
  Browsing: players, folders and media items are written one behind the other into a buffer, from
  which the response is then read back item by item.
 */
module AvrcpItems {
  import opened Bytes
  import opened Sequences

  const UID_SIZE := 8
  const FEATURES := 16
  const MAX_ITEMS := 32

  datatype Kind = PlayerKind | FolderKind | MediaKind

  datatype Item =
    | Player(itemType: Byte, playerId: UInt16, majorType: Byte, subType: UInt32, playStatus: Byte,
             features: seq<Byte>, charset: UInt16, name: seq<Byte>)
    | Folder(uid: seq<Byte>, itemType: Byte, playable: Byte, charset: UInt16, name: seq<Byte>)
    | Media(uid: seq<Byte>, itemType: Byte, charset: UInt16, name: seq<Byte>, numAttrs: Byte)
  {
    function Kind(): Kind {
      if Player? then PlayerKind else if Folder? then FolderKind else MediaKind
    }

    /** The arrays have their sizes, and the length of the entry fits into 15 bits. */
    predicate Valid() {
      && |name| < 0x8000 - 29
      && (Player? ==> |features| == FEATURES) && (!Player? ==> |uid| == UID_SIZE)
    }
  }

  function Le16(n: UInt16): (s: seq<Byte>)
    ensures |s| == 2
  {
    [n % 0x100, n / 0x100 % 0x100]
  }

  function Le32(n: UInt32): (s: seq<Byte>)
    ensures |s| == 4
  {
    [n % 0x100, n / 0x100 % 0x100, n / 0x1_0000 % 0x100, n / 0x100_0000 % 0x100]
  }

  /** `n >> (8 * bytes)` */
  function ShiftRight(n: UInt32, bytes: nat): UInt32 {
    if bytes == 0 then n else if bytes == 1 then n / 0x100 else if bytes == 2 then n / 0x1_0000
    else if bytes == 3 then n / 0x100_0000 else 0
  }

  /** What comes before the character set. */
  function Head(i: Item): (s: seq<Byte>) {
    match i
    case Player(itemType, playerId, majorType, subType, playStatus, features, _, _) =>
      [itemType] + Le16(playerId) + [majorType] + Le32(subType) + [playStatus] + features
    case Folder(uid, itemType, playable, _, _) => uid + [itemType, playable]
    case Media(uid, itemType, _, _, _) => uid + [itemType]
  }

  /** The character set and the name, which all entries have in common. */
  function Named(i: Item): seq<Byte>
    requires i.Valid()
  {
    Le16(i.charset) + Le16(|i.name|) + i.name
  }

  function Entry(i: Item): seq<Byte>
    requires i.Valid()
  {
    Head(i) + Named(i) + if i.Media? then [i.numAttrs] else []
  }

  predicate AllValid(items: seq<Item>) {
    forall i :: i in items ==> i.Valid()
  }

  function Entries(items: seq<Item>): seq<Byte>
    requires AllValid(items)
  {
    if items == [] then [] else Entry(items[0]) + Entries(items[1..])
  }

  /** `mEntryLength` */
  function EntryLength(i: Item): nat {
    |i.name| + match i.Kind() case PlayerKind => 29 case FolderKind => UID_SIZE + 6 case MediaKind => UID_SIZE + 6
  }

  lemma EntryHasLength(i: Item)
    requires i.Valid()
    ensures |Entry(i)| == EntryLength(i) < 0x8000
  {}

  /** Where the fields are, least significant byte first. */
  lemma PlayerLayout(i: Item)
    requires i.Valid() && i.Player?
    ensures var e := Entry(i);
            && |e| == 29 + |i.name|
            && e[0] == i.itemType && e[1] + 0x100 * (e[2] as int) == i.playerId && e[3] == i.majorType
            && e[4] + 0x100 * (e[5] as int) + 0x1_0000 * (e[6] as int) + 0x100_0000 * (e[7] as int) == i.subType
            && e[8] == i.playStatus && e[9..25] == i.features
            && e[25] + 0x100 * (e[26] as int) == i.charset && e[27] + 0x100 * (e[28] as int) == |i.name|
            && e[29..] == i.name
  {
    TwoBytes(i.playerId);
    FourBytes(i.subType);
    NameLayout(i, 25);
    assert Head(i)[1..3] == Le16(i.playerId) && Head(i)[4..8] == Le32(i.subType);
    assert Entry(i)[9..25] == i.features;
  }

  lemma FolderLayout(i: Item)
    requires i.Valid() && i.Folder?
    ensures var e := Entry(i);
            && |e| == 14 + |i.name|
            && e[..8] == i.uid && e[8] == i.itemType && e[9] == i.playable
            && e[10] + 0x100 * (e[11] as int) == i.charset && e[12] + 0x100 * (e[13] as int) == |i.name|
            && e[14..] == i.name
  {
    NameLayout(i, 10);
    assert Entry(i)[..8] == i.uid;
  }

  lemma MediaLayout(i: Item)
    requires i.Valid() && i.Media?
    ensures var e := Entry(i);
            && |e| == 14 + |i.name|
            && e[..8] == i.uid && e[8] == i.itemType
            && e[9] + 0x100 * (e[10] as int) == i.charset && e[11] + 0x100 * (e[12] as int) == |i.name|
            && e[13..|e| - 1] == i.name && e[|e| - 1] == i.numAttrs
  {
    NameLayout(i, 9);
    assert Entry(i)[..8] == i.uid;
  }

  lemma NameLayout(i: Item, h: nat)
    requires i.Valid() && |Head(i)| == h
    ensures var e := Entry(i);
            && h + 4 + |i.name| <= |e|
            && e[h] + 0x100 * (e[h + 1] as int) == i.charset && e[h + 2] + 0x100 * (e[h + 3] as int) == |i.name|
            && e[h + 4..h + 4 + |i.name|] == i.name
  {
    TwoBytes(i.charset);
    TwoBytes(|i.name|);
    var e := Entry(i);
    assert e[h..h + 4 + |i.name|] == Named(i);
    assert Named(i)[..2] == Le16(i.charset) && Named(i)[2..4] == Le16(|i.name|) && Named(i)[4..] == i.name;
    assert forall k :: 0 <= k < 4 ==> e[h + k] == Named(i)[k];
    assert Le16(i.charset)[0] == Named(i)[0] && Le16(i.charset)[1] == Named(i)[1];
    assert Le16(|i.name|)[0] == Named(i)[2] && Le16(|i.name|)[1] == Named(i)[3];
  }

  // ------------------------------------------------------------------------------------------
  // Writing

  method Put(entry: array<Byte>, position: nat, b: Byte) returns (next: nat)
    requires position < entry.Length
    modifies entry
    ensures next == position + 1 && entry[..next] == old(entry[..position]) + [b]
    ensures forall j :: next <= j < entry.Length ==> entry[j] == old(entry[j])
  {
    entry[position] := b;
    next := position + 1;
  }

  method PutAll(entry: array<Byte>, position: nat, bytes: seq<Byte>) returns (next: nat)
    requires position + |bytes| <= entry.Length
    modifies entry
    ensures next == position + |bytes| && entry[..next] == old(entry[..position]) + bytes
    ensures forall j :: next <= j < entry.Length ==> entry[j] == old(entry[j])
  {
    next := position;
    var count := 0;
    ghost var before := entry[..position];
    while count < |bytes|
      invariant count <= |bytes| && next == position + count
      invariant entry[..next] == before + bytes[..count]
      invariant forall j :: next <= j < entry.Length ==> entry[j] == old(entry[j])
    {
      assert before + bytes[..count] + [bytes[count]] == before + bytes[..count + 1];
      next := Put(entry, next, bytes[count]);
      count := count + 1;
    }
    assert bytes[..count] == bytes && entry[..next] == before + bytes;
  }

  method Put16(entry: array<Byte>, position: nat, n: UInt16) returns (next: nat)
    requires position + 2 <= entry.Length
    modifies entry
    ensures next == position + 2 && entry[..next] == old(entry[..position]) + Le16(n)
    ensures forall j :: next <= j < entry.Length ==> entry[j] == old(entry[j])
  {
    next := Put(entry, position, n % 0x100);
    next := Put(entry, next, n / 0x100 % 0x100);
  }

  method PutName(entry: array<Byte>, position: nat, i: Item) returns (next: nat)
    requires i.Valid() && position + 4 + |i.name| <= entry.Length
    modifies entry
    ensures next == position + 4 + |i.name| && entry[..next] == old(entry[..position]) + Named(i)
    ensures forall j :: next <= j < entry.Length ==> entry[j] == old(entry[j])
  {
    ghost var before := entry[..position];
    next := Put16(entry, position, i.charset);
    next := Put16(entry, next, |i.name|);
    next := PutAll(entry, next, i.name);
    assert entry[..next] == before + Le16(i.charset) + Le16(|i.name|) + i.name == before + Named(i);
  }

  /** The player's type, byte by byte. */
  method Put32(entry: array<Byte>, position: nat, n: UInt32) returns (next: nat)
    requires position + 4 <= entry.Length
    modifies entry
    ensures next == position + 4 && entry[..next] == old(entry[..position]) + Le32(n)
    ensures forall j :: next <= j < entry.Length ==> entry[j] == old(entry[j])
  {
    next := position;
    var count := 0;
    ghost var before := entry[..position];
    while count < 4
      invariant 0 <= count <= 4 && next == position + count
      invariant entry[..next] == before + Le32(n)[..count]
      invariant forall j :: next <= j < entry.Length ==> entry[j] == old(entry[j])
    {
      var b := ShiftRight(n, count) % 0x100;
      assert before + Le32(n)[..count] + [b] == before + Le32(n)[..count + 1];
      next := Put(entry, next, b);
      count := count + 1;
    }
  }

  /** `RetrievePlayerItemEntry` */
  method RetrievePlayerItemEntry(i: Item) returns (entry: array<Byte>)
    requires i.Player? && i.Valid()
    ensures fresh(entry) && entry[..] == Entry(i)
  {
    hide Le16, Le32;
    entry := new Byte[EntryLength(i)];
    var position := Put(entry, 0, i.itemType);
    position := Put16(entry, position, i.playerId);
    position := Put(entry, position, i.majorType);
    position := Put32(entry, position, i.subType);
    position := Put(entry, position, i.playStatus);
    position := PutAll(entry, position, i.features);
    assert entry[..position] == Head(i);
    position := PutName(entry, position, i);
    assert entry[..position] == entry[..];
  }

  /** `RetrieveFolderItemEntry` */
  method RetrieveFolderItemEntry(i: Item) returns (entry: array<Byte>)
    requires i.Folder? && i.Valid()
    ensures fresh(entry) && entry[..] == Entry(i)
  {
    entry := new Byte[EntryLength(i)];
    var position := PutAll(entry, 0, i.uid);
    position := Put(entry, position, i.itemType);
    position := Put(entry, position, i.playable);
    assert entry[..position] == Head(i);
    position := PutName(entry, position, i);
    assert entry[..position] == entry[..];
  }

  /** `RetrieveMediaItemEntry` */
  method RetrieveMediaItemEntry(i: Item) returns (entry: array<Byte>)
    requires i.Media? && i.Valid()
    ensures fresh(entry) && entry[..] == Entry(i)
  {
    entry := new Byte[EntryLength(i)];
    var position := PutAll(entry, 0, i.uid);
    position := Put(entry, position, i.itemType);
    assert entry[..position] == Head(i);
    position := PutName(entry, position, i);
    position := Put(entry, position, i.numAttrs);
    assert entry[..position] == entry[..];
  }

  // ------------------------------------------------------------------------------------------
  // Reading

  /** `bytes` is in the buffer at index `at`. */
  ghost predicate At(buf: array<Byte>, at: nat, bytes: seq<Byte>)
    reads buf
  {
    at + |bytes| <= buf.Length && buf[at..at + |bytes|] == bytes
  }

  lemma AtParts(buf: array<Byte>, at: nat, a: seq<Byte>, b: seq<Byte>)
    requires At(buf, at, a + b)
    ensures At(buf, at, a) && At(buf, at + |a|, b)
  {
    assert buf[at..at + |a + b|][..|a|] == a && buf[at..at + |a + b|][|a|..] == b;
  }

  method Get16(buf: array<Byte>, at: nat, ghost n: UInt16) returns (value: UInt16)
    requires At(buf, at, Le16(n))
    ensures value == n
  {
    assert buf[at] == Le16(n)[0] && buf[at + 1] == Le16(n)[1];
    var low: int, high: int := buf[at], buf[at + 1];
    value := low + high * 0x100;
  }

  method Get32(buf: array<Byte>, at: nat, ghost n: UInt32) returns (value: UInt32)
    requires At(buf, at, Le32(n))
    ensures value == n
  {
    assert forall k :: 0 <= k < 4 ==> buf[at + k] == Le32(n)[k];
    FourBytes(n);
    var b0: int, b1: int, b2: int, b3: int := buf[at], buf[at + 1], buf[at + 2], buf[at + 3];
    value := b0 + b1 * 0x100 + b2 * 0x1_0000 + b3 * 0x100_0000;
  }

  method GetAll(buf: array<Byte>, at: nat, n: nat, ghost bytes: seq<Byte>) returns (value: seq<Byte>)
    requires At(buf, at, bytes) && n == |bytes|
    ensures value == bytes
  {
    value := [];
    var countTemp := 0;
    while countTemp < n
      invariant countTemp <= n && value == bytes[..countTemp]
    {
      assert buf[at + countTemp] == buf[at..at + |bytes|][countTemp];
      value := value + [buf[at + countTemp]];
      countTemp := countTemp + 1;
    }
  }

  /** The character set and the name, behind the head of the entry. */
  method GetName(buf: array<Byte>, at: nat, ghost i: Item) returns (charset: UInt16, name: seq<Byte>, next: nat)
    requires i.Valid() && At(buf, at, Named(i))
    ensures charset == i.charset && name == i.name && next == at + 4 + |i.name|
  {
    AtParts(buf, at, Le16(i.charset) + Le16(|i.name|), i.name);
    AtParts(buf, at, Le16(i.charset), Le16(|i.name|));
    charset := Get16(buf, at, i.charset);
    var strLen := Get16(buf, at + 2, |i.name|);
    name := GetAll(buf, at + 4, strLen, i.name);
    next := at + 4 + strLen;
  }

  /** The entry in parts: head, name, and the number of attributes of a media item. */
  lemma EntryParts(buf: array<Byte>, at: nat, i: Item)
    requires i.Valid() && At(buf, at, Entry(i))
    ensures At(buf, at, Head(i)) && At(buf, at + |Head(i)|, Named(i))
  {
    var tail := if i.Media? then [i.numAttrs] else [];
    assert Entry(i) == (Head(i) + Named(i)) + tail;
    hide Entry, Head, Named, At;
    AtParts(buf, at, Head(i) + Named(i), tail);
    AtParts(buf, at, Head(i), Named(i));
  }

  method ParsePlayer(buf: array<Byte>, at: nat, ghost i: Item) returns (item: Item, next: nat)
    requires i.Player? && i.Valid() && At(buf, at, Entry(i))
    ensures item == i && next == at + EntryLength(i)
  {
    EntryParts(buf, at, i);
    PlayerHead(buf, at, i);
    var id := Get16(buf, at + 1, i.playerId);
    var subType := Get32(buf, at + 4, i.subType);
    var features := GetAll(buf, at + 9, FEATURES, i.features);
    var charset, name;
    charset, name, next := GetName(buf, at + 9 + FEATURES, i);
    item := Player(buf[at], id, buf[at + 3], subType, buf[at + 8], features, charset, name);
  }

  lemma PlayerHead(buf: array<Byte>, at: nat, i: Item)
    requires i.Player? && i.Valid() && At(buf, at, Head(i))
    ensures at + 25 <= buf.Length && At(buf, at + 1, Le16(i.playerId)) && At(buf, at + 4, Le32(i.subType))
    ensures At(buf, at + 9, i.features)
    ensures buf[at] == i.itemType && buf[at + 3] == i.majorType && buf[at + 8] == i.playStatus
  {
    var a := [i.itemType] + Le16(i.playerId) + [i.majorType] + Le32(i.subType) + [i.playStatus];
    AtParts(buf, at, a, i.features);
    AtParts(buf, at, [i.itemType] + Le16(i.playerId) + [i.majorType] + Le32(i.subType), [i.playStatus]);
    AtParts(buf, at, [i.itemType] + Le16(i.playerId) + [i.majorType], Le32(i.subType));
    AtParts(buf, at, [i.itemType] + Le16(i.playerId), [i.majorType]);
    AtParts(buf, at, [i.itemType], Le16(i.playerId));
    AtOne(buf, at, i.itemType);
    AtOne(buf, at + 3, i.majorType);
    AtOne(buf, at + 8, i.playStatus);
  }

  lemma AtOne(buf: array<Byte>, at: nat, b: Byte)
    requires At(buf, at, [b])
    ensures at < buf.Length && buf[at] == b
  {
    assert buf[at..at + 1][0] == b;
  }

  method ParseFolder(buf: array<Byte>, at: nat, ghost i: Item) returns (item: Item, next: nat)
    requires i.Folder? && i.Valid() && At(buf, at, Entry(i))
    ensures item == i && next == at + EntryLength(i)
  {
    EntryParts(buf, at, i);
    AtParts(buf, at, i.uid, [i.itemType, i.playable]);
    var uid := GetAll(buf, at, UID_SIZE, i.uid);
    assert [i.itemType, i.playable] == [i.itemType] + [i.playable];
    AtParts(buf, at + UID_SIZE, [i.itemType], [i.playable]);
    AtOne(buf, at + UID_SIZE, i.itemType);
    AtOne(buf, at + UID_SIZE + 1, i.playable);
    var charset, name;
    charset, name, next := GetName(buf, at + UID_SIZE + 2, i);
    item := Folder(uid, buf[at + UID_SIZE], buf[at + UID_SIZE + 1], charset, name);
  }

  /** The number of attributes is skipped, and replaced by the one that was asked for. */
  method ParseMedia(buf: array<Byte>, at: nat, numAttrs: Byte, ghost i: Item) returns (item: Item, next: nat)
    requires i.Media? && i.Valid() && At(buf, at, Entry(i))
    ensures item == i.(numAttrs := numAttrs) && next == at + EntryLength(i)
  {
    EntryParts(buf, at, i);
    AtParts(buf, at, i.uid, [i.itemType]);
    var uid := GetAll(buf, at, UID_SIZE, i.uid);
    AtOne(buf, at + UID_SIZE, i.itemType);
    var charset, name;
    charset, name, next := GetName(buf, at + UID_SIZE + 1, i);
    next := next + 1;
    item := Media(uid, buf[at + UID_SIZE], charset, name, numAttrs);
  }

  // ------------------------------------------------------------------------------------------
  // The response

  /** What is read back of an item. */
  function Reply(i: Item, numAttrs: Byte): Item {
    if i.Media? then i.(numAttrs := numAttrs) else i
  }

  lemma {:induction false} EntriesConcat(a: seq<Item>, b: seq<Item>)
    requires AllValid(a) && AllValid(b) && AllValid(a + b)
    ensures Entries(a + b) == Entries(a) + Entries(b)
    decreases |a|
  {
    hide Entry;
    if a == [] {
      assert a + b == b;
    } else {
      assert (a + b)[1..] == a[1..] + b;
      EntriesConcat(a[1..], b);
    }
  }

  lemma PartsAreValid(items: seq<Item>, k: nat)
    requires AllValid(items) && k < |items|
    ensures AllValid(items[..k]) && AllValid(items[..k + 1]) && AllValid(items[k..]) && AllValid(items[k + 1..])
    ensures AllValid([items[k]]) && AllValid(items[..k] + [items[k]]) && AllValid([items[k]] + items[k + 1..])
    ensures items[k].Valid() && AllValid(items[..k + 1] + items[k + 1..])
  {}

  lemma OneEntry(i: Item)
    requires AllValid([i]) && i.Valid()
    ensures Entries([i]) == Entry(i)
  {
    assert [i][1..] == [];
  }

  lemma EntriesNext(items: seq<Item>, k: nat)
    requires AllValid(items) && k < |items|
    ensures Entries(items[..k + 1]) == Entries(items[..k]) + Entry(items[k])
    ensures Entries(items[k..]) == Entry(items[k]) + Entries(items[k + 1..])
    ensures Entries(items) == Entries(items[..k + 1]) + Entries(items[k + 1..])
  {
    hide Entry, Entries, AllValid;
    PartsAreValid(items, k);
    EntriesUpTo(items, k);
    EntriesFrom(items, k);
    EntriesSplit(items, k + 1);
  }

  lemma EntriesUpTo(items: seq<Item>, k: nat)
    requires AllValid(items) && k < |items|
    ensures AllValid(items[..k]) && AllValid(items[..k + 1]) && items[k].Valid()
    ensures Entries(items[..k + 1]) == Entries(items[..k]) + Entry(items[k])
  {
    PartsAreValid(items, k);
    OneEntry(items[k]);
    hide Entry, Entries, AllValid;
    AroundIndex(items, k);
    EntriesConcat(items[..k], [items[k]]);
  }

  lemma EntriesFrom(items: seq<Item>, k: nat)
    requires AllValid(items) && k < |items|
    ensures AllValid(items[k..]) && AllValid(items[k + 1..]) && items[k].Valid()
    ensures Entries(items[k..]) == Entry(items[k]) + Entries(items[k + 1..])
  {
    PartsAreValid(items, k);
    OneEntry(items[k]);
    hide Entry, Entries, AllValid;
    assert items[k..] == [items[k]] + items[k + 1..];
    EntriesConcat([items[k]], items[k + 1..]);
  }

  lemma EntriesSplit(items: seq<Item>, k: nat)
    requires AllValid(items) && k <= |items|
    ensures AllValid(items[..k]) && AllValid(items[k..])
    ensures Entries(items) == Entries(items[..k]) + Entries(items[k..])
  {
    assert items == items[..k] + items[k..];
    hide Entry, Entries;
    EntriesConcat(items[..k], items[k..]);
  }

  method RetrieveItemEntry(i: Item) returns (entry: array<Byte>)
    requires i.Valid()
    ensures fresh(entry) && entry[..] == Entry(i)
  {
    match i.Kind() {
      case PlayerKind => entry := RetrievePlayerItemEntry(i);
      case FolderKind => entry := RetrieveFolderItemEntry(i);
      case MediaKind => entry := RetrieveMediaItemEntry(i);
    }
  }

  method ParseItem(buf: array<Byte>, at: nat, kind: Kind, numAttrs: Byte, ghost i: Item) returns (item: Item, next: nat)
    requires i.Valid() && kind == i.Kind() && At(buf, at, Entry(i))
    ensures item == Reply(i, numAttrs) && next == at + EntryLength(i)
  {
    match kind {
      case PlayerKind => item, next := ParsePlayer(buf, at, i);
      case FolderKind => item, next := ParseFolder(buf, at, i);
      case MediaKind => item, next := ParseMedia(buf, at, numAttrs, i);
    }
  }

  /** Writes all entries into the buffer, and their lengths into a list. */
  method Fill(items: seq<Item>, folderItems: array<Byte>) returns (lengths: seq<nat>)
    requires AllValid(items) && |Entries(items)| <= folderItems.Length
    modifies folderItems
    ensures |lengths| == |items| && forall k :: 0 <= k < |items| ==> lengths[k] == EntryLength(items[k])
    ensures At(folderItems, 0, Entries(items))
  {
    hide Entry, Entries;
    lengths := [];
    var positionItemStart, k := 0, 0;
    NoEntries();
    while k < |items|
      invariant k <= |items| && |lengths| == k && positionItemStart == |Entries(items[..k])|
      invariant positionItemStart <= folderItems.Length && folderItems[..positionItemStart] == Entries(items[..k])
      invariant forall j :: 0 <= j < k ==> lengths[j] == EntryLength(items[j])
    {
      EntriesNext(items, k);
      EntryHasLength(items[k]);
      var entry := RetrieveItemEntry(items[k]);
      lengths := lengths + [entry.Length];
      positionItemStart := PutAll(folderItems, positionItemStart, entry[..]);
      k := k + 1;
    }
    assert items[..k] == items;
  }

  lemma NoEntries()
    ensures Entries([]) == []
  {}

  predicate AllOfKind(items: seq<Item>, kind: Kind) {
    forall i :: i in items ==> i.Kind() == kind
  }

  /** Reads one more item of a buffer in which all items are. */
  method ReadNext(buf: array<Byte>, at: nat, kind: Kind, numAttrs: Byte, ghost items: seq<Item>, ghost k: nat)
    returns (item: Item, next: nat)
    requires AllValid(items) && AllOfKind(items, kind) && k < |items| && At(buf, at, Entries(items[k..]))
    ensures item == Reply(items[k], numAttrs) && next == at + EntryLength(items[k])
    ensures AllValid(items[k + 1..]) && At(buf, next, Entries(items[k + 1..]))
  {
    hide Entry, Entries, At;
    EntriesNext(items, k);
    EntryHasLength(items[k]);
    AtParts(buf, at, Entry(items[k]), Entries(items[k + 1..]));
    item, next := ParseItem(buf, at, kind, numAttrs, items[k]);
  }

  /** Reads the items back; `misread` is what the source reports as an error. */
  method ReadBack(
    buf: array<Byte>, lengths: seq<nat>, kind: Kind, numAttrs: Byte, ghost items: seq<Item>)
    returns (list: seq<Item>, misread: bool)
    requires AllValid(items) && AllOfKind(items, kind) && At(buf, 0, Entries(items))
    requires |lengths| == |items| && forall k :: 0 <= k < |items| ==> lengths[k] == EntryLength(items[k])
    ensures |list| == |items| && forall k :: 0 <= k < |items| ==> list[k] == Reply(items[k], numAttrs)
    ensures !misread
  {
    hide AllValid, AllOfKind, At, Entries, Reply;
    var countTotalBytes, checkLength, count := 0, 0, 0;
    list, misread := [], false;
    assert items[0..] == items;
    while count < |lengths|
      invariant count <= |items| && |list| == count && checkLength == countTotalBytes && !misread
      invariant AllValid(items[count..]) && At(buf, countTotalBytes, Entries(items[count..]))
      invariant forall k :: 0 <= k < count ==> list[k] == Reply(items[k], numAttrs)
    {
      var item;
      item, countTotalBytes := ReadNext(buf, countTotalBytes, kind, numAttrs, items, count);
      list := list + [item];
      checkLength := checkLength + lengths[count];
      misread := misread || checkLength != countTotalBytes;
      count := count + 1;
    }
  }

  /**
    The response to a request for items of one kind: every field of every item comes back in order,
    and after each item as many bytes have been read as the entries so far are long.
   */
  method Respond(items: seq<Item>, kind: Kind, size: nat, numAttrs: Byte)
    returns (invalidRange: bool, list: seq<Item>, misread: bool)
    requires AllValid(items) && AllOfKind(items, kind) && |items| <= MAX_ITEMS && |Entries(items)| <= size
    ensures |list| == |items| && forall k :: 0 <= k < |items| ==> list[k] == Reply(items[k], numAttrs)
    ensures !misread && invalidRange == (items == [])
  {
    var folderItems := new Byte[size];
    var folderItemLengths := Fill(items, folderItems);
    list, misread := ReadBack(folderItems, folderItemLengths, kind, numAttrs, items);
    invalidRange := |list| == 0;
  }

  /** The players that are asked for: all of them, or none. */
  function SelectedPlayers(items: seq<Item>, start: nat): seq<Item> {
    if |items| > 0 && start == 0 then items else []
  }

  /** The folders or media items that are asked for. */
  function Selected(items: seq<Item>, start: nat, end: nat): seq<Item> {
    if |items| > 0 && start <= 1 then items[start..if end >= |items| then |items| else end + 1] else []
  }

  /** The items of one kind that are asked for, as the response gives them. */
  method GetFolderItems(items: seq<Item>, kind: Kind, start: nat, end: nat, size: nat, numAttrs: Byte)
    returns (invalidRange: bool, list: seq<Item>, misread: bool)
    requires AllValid(items) && AllOfKind(items, kind)
    requires var asked := Asked(items, kind, start, end); |asked| <= MAX_ITEMS && |Entries(asked)| <= size
    ensures var asked := Asked(items, kind, start, end);
            && |list| == |asked| && (forall k :: 0 <= k < |asked| ==> list[k] == Reply(asked[k], numAttrs))
            && !misread && invalidRange == (asked == [])
    ensures kind.PlayerKind? && start == 0 ==>
              |list| == |items| && forall k :: 0 <= k < |items| ==> list[k] == items[k]
    ensures (if kind.PlayerKind? then start > 0 else start > 1) || items == [] ==> list == [] && invalidRange
    ensures !kind.PlayerKind? && start <= 1 && items != [] ==>
              && |list| == (if end < |items| then end + 1 else |items|) - start
              && forall k :: 0 <= k < |list| ==>
                   var i := items[start + k]; list[k] == if i.Media? then i.(numAttrs := numAttrs) else i
  {
    assert forall k :: 0 <= k < |items| ==> items[k] in items && items[k].Kind() == kind;
    var asked := Asked(items, kind, start, end);
    invalidRange, list, misread := Respond(asked, kind, size, numAttrs);
  }

  function Asked(items: seq<Item>, kind: Kind, start: nat, end: nat): (asked: seq<Item>)
    requires AllValid(items)
    ensures AllValid(asked)
  {
    if kind.PlayerKind? then SelectedPlayers(items, start) else Selected(items, start, end)
  }

  // ------------------------------------------------------------------------------------------
  // A buffer of entries can be read in one way only

  lemma Le16Injective(m: UInt16, n: UInt16)
    requires Le16(m) == Le16(n)
    ensures m == n
  {
    TwoBytes(m);
    TwoBytes(n);
    assert Le16(m)[0] == Le16(n)[0] && Le16(m)[1] == Le16(n)[1];
  }

  lemma Le32Injective(m: UInt32, n: UInt32)
    requires Le32(m) == Le32(n)
    ensures m == n
  {
    FourBytes(m);
    FourBytes(n);
    assert forall k :: 0 <= k < 4 ==> Le32(m)[k] == Le32(n)[k];
  }

  lemma PlayerHeadInjective(i: Item, j: Item)
    requires i.Player? && j.Player? && i.Valid() && j.Valid() && Head(i) == Head(j)
    ensures i.itemType == j.itemType && i.playerId == j.playerId && i.majorType == j.majorType
    ensures i.subType == j.subType && i.playStatus == j.playStatus && i.features == j.features
  {
    var x, y := Head(i), Head(j);
    assert x[1..3] == Le16(i.playerId) && y[1..3] == Le16(j.playerId);
    assert x[4..8] == Le32(i.subType) && y[4..8] == Le32(j.subType);
    assert x[9..] == i.features && y[9..] == j.features;
    assert [x[0], x[3], x[8]] == [i.itemType, i.majorType, i.playStatus];
    assert [y[0], y[3], y[8]] == [j.itemType, j.majorType, j.playStatus];
    Le16Injective(i.playerId, j.playerId);
    Le32Injective(i.subType, j.subType);
  }

  lemma OtherHeadInjective(i: Item, j: Item)
    requires !i.Player? && i.Kind() == j.Kind() && i.Valid() && j.Valid() && Head(i) == Head(j)
    ensures i.uid == j.uid && i.itemType == j.itemType && (i.Folder? ==> i.playable == j.playable)
  {
    var x, y := Head(i), Head(j);
    assert x[..UID_SIZE] == i.uid && y[..UID_SIZE] == j.uid;
    assert x[UID_SIZE] == i.itemType && y[UID_SIZE] == j.itemType;
  }

  lemma NamedInjective(i: Item, j: Item, a: seq<Byte>, b: seq<Byte>)
    requires i.Valid() && j.Valid() && Named(i) + a == Named(j) + b
    ensures i.charset == j.charset && i.name == j.name && a == b
  {
    hide Le16;
    assert Named(i) + a == Le16(i.charset) + (Le16(|i.name|) + (i.name + a));
    assert Named(j) + b == Le16(j.charset) + (Le16(|j.name|) + (j.name + b));
    SplitEqual(Le16(i.charset), Le16(j.charset), Le16(|i.name|) + (i.name + a), Le16(|j.name|) + (j.name + b));
    SplitEqual(Le16(|i.name|), Le16(|j.name|), i.name + a, j.name + b);
    Le16Injective(i.charset, j.charset);
    Le16Injective(|i.name|, |j.name|);
    SplitEqual(i.name, j.name, a, b);
  }

  /** No entry of a kind begins another one. */
  lemma EntriesDoNotOverlap(i: Item, j: Item, a: seq<Byte>, b: seq<Byte>)
    requires i.Valid() && j.Valid() && i.Kind() == j.Kind() && Entry(i) + a == Entry(j) + b
    ensures i == j && a == b
  {
    var x := if i.Media? then [i.numAttrs] else [];
    var y := if j.Media? then [j.numAttrs] else [];
    HeadLength(i);
    HeadLength(j);
    hide Head, Named;
    Regroup(Head(i), Named(i), x, a);
    Regroup(Head(j), Named(j), y, b);
    SplitEqual(Head(i), Head(j), Named(i) + (x + a), Named(j) + (y + b));
    NamedInjective(i, j, x + a, y + b);
    SplitEqual(x, y, a, b);
    if i.Player? {
      PlayerHeadInjective(i, j);
    } else {
      OtherHeadInjective(i, j);
    }
  }

  lemma HeadLength(i: Item)
    requires i.Valid()
    ensures |Head(i)| == if i.Player? then 25 else if i.Folder? then UID_SIZE + 2 else UID_SIZE + 1
  {}

  /** Two lists of items of one kind that are written alike are the same. */
  lemma {:induction false} EntriesInjective(a: seq<Item>, b: seq<Item>, kind: Kind)
    requires AllValid(a) && AllValid(b) && AllOfKind(a, kind) && AllOfKind(b, kind) && Entries(a) == Entries(b)
    ensures a == b
    decreases |a|
  {
    SomeEntries(a);
    SomeEntries(b);
    if a != [] {
      EntriesDoNotOverlap(a[0], b[0], Entries(a[1..]), Entries(b[1..]));
      EntriesInjective(a[1..], b[1..], kind);
    }
  }

  lemma SomeEntries(items: seq<Item>)
    requires AllValid(items)
    ensures Entries(items) == [] <==> items == []
  {
    if items != [] {
      EntryHasLength(items[0]);
    }
  }
}
