/** What the file manager is for: every user's directory behaves like one sequence of messages. */
module Mailbox {
  import opened Text
  import opened Messages
  import opened Inflation
  import opened SendFormat
  import opened Multimap
  import opened FileManager

  // ---------------------------------------------------------------- the order of the files

  function Keyed(e: Entry): (int, Entry) {
    (e.mtime, e)
  }

  /** The regular files in iteration order. */
  function Regular(dir: Directory): Sorted<Entry>
    decreases |dir|
  {
    if dir == [] then []
    else
      var s := Regular(dir[..|dir| - 1]);
      var e := dir[|dir| - 1];
      if e.regular then s + [Keyed(e)] else s
  }

  lemma {:induction false} AtSnoc<V>(s: Sorted<V>, x: (int, V), key: int)
    ensures At(s + [x], key) == At(s, key) + (if x.0 == key then [x] else [])
    decreases |s|
  {
    if s == [] {
      assert (s + [x])[1..] == [];
    } else {
      assert (s + [x])[1..] == s[1..] + [x];
      AtSnoc(s[1..], x, key);
    }
  }

  /** The order of listing and indexing: a permutation of the regular files, sorted by modification time, and
      stable, so files with equal times keep the order of the directory iterator. */
  lemma {:induction false} SortFilesIsStableSort(dir: Directory)
    ensures multiset(SortFiles(dir)) == multiset(Regular(dir))
    ensures InOrder(SortFiles(dir))
    ensures forall key :: At(SortFiles(dir), key) == At(Regular(dir), key)
    decreases |dir|
  {
    if dir != [] {
      var before, e := dir[..|dir| - 1], dir[|dir| - 1];
      SortFilesIsStableSort(before);
      if e.regular {
        var s := SortFiles(before);
        InsertContents(s, e.mtime, e);
        InsertInOrder(s, e.mtime, e);
        forall key ensures At(SortFiles(dir), key) == At(Regular(dir), key) {
          InsertStable(s, e.mtime, e, key);
          AtSnoc(Regular(before), Keyed(e), key);
        }
      }
    }
  }

  ghost predicate DistinctNames(dir: Directory) {
    forall i, j :: 0 <= i < j < |dir| ==> dir[i].name != dir[j].name
  }

  lemma {:induction false} SortFilesMembers(dir: Directory)
    ensures forall x :: x in SortFiles(dir) ==> x.1 in dir && x.1.regular && x == Keyed(x.1)
    ensures forall e :: e in dir && e.regular ==> Keyed(e) in SortFiles(dir)
    decreases |dir|
  {
    if dir != [] {
      var before, e := dir[..|dir| - 1], dir[|dir| - 1];
      SortFilesMembers(before);
      assert dir == before + [e];
      if e.regular {
        InsertContents(SortFiles(before), e.mtime, e);
      }
    }
  }

  lemma InsertDistinct<V>(s: Sorted<V>, key: int, value: V)
    requires Distinct(s) && (key, value) !in s
    ensures Distinct(Insert(s, key, value))
    decreases |s|
  {
    if s == [] || key < s[0].0 {
    } else {
      InsertDistinct(s[1..], key, value);
      InsertContents(s[1..], key, value);
      var tail := Insert(s[1..], key, value);
      forall j | 0 <= j < |tail| ensures s[0] != tail[j] {
        assert tail[j] in tail;
        assert tail[j] in s[1..] || tail[j] == (key, value);
      }
    }
  }

  lemma {:induction false} SortFilesDistinct(dir: Directory)
    requires DistinctNames(dir)
    ensures Distinct(SortFiles(dir))
    decreases |dir|
  {
    if dir != [] {
      var before, e := dir[..|dir| - 1], dir[|dir| - 1];
      SortFilesDistinct(before);
      SortFilesMembers(before);
      if e.regular {
        NotAmong(dir);
        InsertDistinct(SortFiles(before), e.mtime, e);
      }
    }
  }

  lemma NotAmong(dir: Directory)
    requires dir != [] && DistinctNames(dir)
    ensures Keyed(dir[|dir| - 1]) !in SortFiles(dir[..|dir| - 1])
  {
    var before, e := dir[..|dir| - 1], dir[|dir| - 1];
    SortFilesMembers(before);
    forall i | 0 <= i < |before| ensures before[i] != e {
      assert dir[i].name != dir[|dir| - 1].name;
    }
    assert e !in before;
  }

  // ---------------------------------------------------------------- deletion

  function DropAt(dir: Directory, j: nat): Directory
    requires j < |dir|
  {
    dir[..j] + dir[j + 1..]
  }

  lemma {:induction false} RemoveNameDrops(dir: Directory, j: nat)
    requires j < |dir| && DistinctNames(dir)
    ensures RemoveName(dir, dir[j].name) == DropAt(dir, j)
    decreases |dir|
  {
    if j > 0 {
      assert dir[0].name != dir[j].name;
      RemoveNameDrops(dir[1..], j - 1);
      assert DropAt(dir, j) == [dir[0]] + DropAt(dir[1..], j - 1);
    }
  }

  /** Sorting commutes with deleting a file. */
  lemma {:induction false} SortFilesDrop(dir: Directory, j: nat)
    requires j < |dir| && DistinctNames(dir) && dir[j].regular
    ensures SortFiles(DropAt(dir, j)) == Without(SortFiles(dir), Keyed(dir[j]))
    decreases |dir|
  {
    var n := |dir| - 1;
    var before, e := dir[..n], dir[n];
    var s := SortFiles(before);
    if j == n {
      assert DropAt(dir, j) == before;
      NotAmong(dir);
      WithoutInsertSame(s, e.mtime, e);
    } else {
      SortFilesDrop(before, j);
      var after := DropAt(dir, j);
      assert after[..|after| - 1] == DropAt(before, j);
      assert after[|after| - 1] == e;
      if e.regular {
        assert Keyed(e) != Keyed(dir[j]) by { assert dir[j].name != dir[n].name; }
        SortFilesIsStableSort(before);
        WithoutInsertOther(s, Keyed(dir[j]), e.mtime, e);
      }
    }
  }

  /** Removing the file at a listed index removes exactly that element of the order. */
  lemma RemoveAtIndex(dir: Directory, index: nat)
    requires DistinctNames(dir) && index < |SortFiles(dir)|
    ensures var s := SortFiles(dir);
      SortFiles(RemoveName(dir, s[index].1.name)) == s[..index] + s[index + 1..]
  {
    var s := SortFiles(dir);
    SortFilesMembers(dir);
    assert s[index] in s;
    var j :| 0 <= j < |dir| && dir[j] == s[index].1;
    RemoveNameDrops(dir, j);
    SortFilesDrop(dir, j);
    SortFilesDistinct(dir);
    WithoutAt(s, index);
  }

  // ---------------------------------------------------------------- a new file

  /** The new file is listed last: its name is new, no file before it in iteration order is newer, and every
      file after it is strictly older. */
  predicate ListedLast(dir: Directory, slot: Slot) {
    && slot.position <= |dir|
    && (forall i :: 0 <= i < |dir| ==> dir[i].name != slot.name)
    && (forall i :: 0 <= i < slot.position && dir[i].regular ==> dir[i].mtime <= slot.mtime)
    && (forall i :: slot.position <= i < |dir| && dir[i].regular ==> dir[i].mtime < slot.mtime)
  }

  function NewFile(slot: Slot, bytes: string): Entry {
    Entry(slot.name, slot.mtime, true, bytes)
  }

  lemma {:induction false} SortFilesAppend(before: Directory, e: Entry, after: Directory)
    requires e.regular
    requires forall i :: 0 <= i < |before| && before[i].regular ==> before[i].mtime <= e.mtime
    requires forall i :: 0 <= i < |after| && after[i].regular ==> after[i].mtime < e.mtime
    ensures SortFiles(before + [e] + after) == SortFiles(before + after) + [Keyed(e)]
    decreases |after|
  {
    var dir := before + [e] + after;
    if after == [] {
      assert dir[..|dir| - 1] == before;
      assert before + after == before;
      SortFilesMembers(before);
      forall i | 0 <= i < |SortFiles(before)| ensures SortFiles(before)[i].0 <= e.mtime {
        assert SortFiles(before)[i] in SortFiles(before);
      }
      InsertLast(SortFiles(before), e.mtime, e);
    } else {
      var n := |after| - 1;
      var x := after[n];
      SortFilesAppend(before, e, after[..n]);
      assert dir[..|dir| - 1] == before + [e] + after[..n];
      assert (before + after)[..|before + after| - 1] == before + after[..n];
      if x.regular {
        InsertBeforeLast(SortFiles(before + after[..n]), Keyed(e), x.mtime, x);
      }
    }
  }

  lemma {:induction false} SortFilesLength(a: Directory, b: Directory)
    requires |a| == |b| && forall i :: 0 <= i < |a| ==> a[i].regular == b[i].regular
    ensures |SortFiles(a)| == |SortFiles(b)|
    decreases |a|
  {
    if a != [] {
      SortFilesLength(a[..|a| - 1], b[..|b| - 1]);
    }
  }

  /** Among files with the time of a new file, an old one iterated after it is also listed after it. */
  lemma {:induction false} RegularEndsLater(dir: Directory, k: nat, i: nat)
    requires k < i < |dir| && dir[i].regular && dir[i].mtime == dir[k].mtime && DistinctNames(dir)
    ensures var f := At(Regular(dir), dir[k].mtime);
      f != [] && f[|f| - 1] != Keyed(dir[k])
    decreases |dir|
  {
    hide At;
    var n := |dir| - 1;
    var before, e := dir[..n], dir[n];
    assert dir[k].name != e.name;
    assert Keyed(e) != Keyed(dir[k]);
    if e.regular {
      AtSnoc(Regular(before), Keyed(e), dir[k].mtime);
    }
    if i < n {
      RegularEndsLater(before, k, i);
    }
  }

  lemma AtLast<V>(s: Sorted<V>, x: (int, V))
    ensures At(s + [x], x.0) == At(s, x.0) + [x]
  {
    AtSnoc(s, x, x.0);
  }

  /** Persisting a message appends it to the order exactly when its file is listed last. */
  lemma WriteAppendsIff(dir: Directory, slot: Slot, bytes: string)
    requires DistinctNames(dir) && slot.position <= |dir| && WriteFile(dir, slot, bytes).Success?
    ensures SortFiles(WriteFile(dir, slot, bytes).value) == SortFiles(dir) + [Keyed(NewFile(slot, bytes))]
       <==> ListedLast(dir, slot)
  {
    hide SortFiles, DistinctNames, ListedLast, WriteFile;
    if Position(dir, slot.name) < |dir| {
      WriteReplaces(dir, slot, bytes);
    } else {
      WriteInserts(dir, slot, bytes);
      if ListedLast(dir, slot) {
        ListedLastAppends(dir, slot, bytes);
      } else {
        NotListedLast(dir, slot, NewFile(slot, bytes));
      }
    }
  }

  /** Over an existing file nothing is appended. */
  lemma WriteReplaces(dir: Directory, slot: Slot, bytes: string)
    requires WriteFile(dir, slot, bytes).Success? && Position(dir, slot.name) < |dir|
    ensures |SortFiles(WriteFile(dir, slot, bytes).value)| == |SortFiles(dir)|
    ensures !ListedLast(dir, slot)
  {
    hide SortFiles;
    SortFilesLength(dir, WriteFile(dir, slot, bytes).value);
  }

  lemma WriteInserts(dir: Directory, slot: Slot, bytes: string)
    requires slot.position <= |dir| && Position(dir, slot.name) == |dir|
    ensures WriteFile(dir, slot, bytes)
         == Success(dir[..slot.position] + [NewFile(slot, bytes)] + dir[slot.position..])
  {
  }

  lemma ListedLastAppends(dir: Directory, slot: Slot, bytes: string)
    requires ListedLast(dir, slot)
    ensures SortFiles(dir[..slot.position] + [NewFile(slot, bytes)] + dir[slot.position..])
         == SortFiles(dir) + [Keyed(NewFile(slot, bytes))]
  {
    hide SortFiles;
    SortFilesAppend(dir[..slot.position], NewFile(slot, bytes), dir[slot.position..]);
    assert dir[..slot.position] + dir[slot.position..] == dir;
  }

  lemma InsertedNames(dir: Directory, k: nat, e: Entry)
    requires DistinctNames(dir) && k <= |dir| && forall i :: 0 <= i < |dir| ==> dir[i].name != e.name
    ensures DistinctNames(dir[..k] + [e] + dir[k..])
  {
    var d := dir[..k] + [e] + dir[k..];
    forall i, j | 0 <= i < j < |d| ensures d[i].name != d[j].name {
      assert d[i] == if i < k then dir[i] else if i == k then e else dir[i - 1];
      assert d[j] == if j < k then dir[j] else if j == k then e else dir[j - 1];
    }
  }

  /** A file listed last is newest, and among equally new ones it is iterated last. */
  lemma LastIsNewest(d: Directory, k: nat, i: nat, others: Sorted<Entry>)
    requires DistinctNames(d) && k < |d| && i < |d| && i != k && d[k].regular && d[i].regular
    requires SortFiles(d) == others + [Keyed(d[k])]
    ensures d[i].mtime <= d[k].mtime
    ensures k < i ==> d[i].mtime < d[k].mtime
  {
    hide SortFiles, DistinctNames;
    var s := SortFiles(d);
    SortFilesIsStableSort(d);
    SortFilesMembers(d);
    assert d[i] in d;
    var at :| 0 <= at < |s| && s[at] == Keyed(d[i]);
    assert s[at].0 <= s[|s| - 1].0;
    if k < i && d[i].mtime == d[k].mtime {
      RegularEndsLater(d, k, i);
      AtLast(others, Keyed(d[k]));
    }
  }

  lemma NotOlder(dir: Directory, slot: Slot) returns (i: nat)
    requires slot.position <= |dir| && !ListedLast(dir, slot)
    requires forall i :: 0 <= i < |dir| ==> dir[i].name != slot.name
    ensures i < |dir| && dir[i].regular
    ensures if i < slot.position then dir[i].mtime > slot.mtime else dir[i].mtime >= slot.mtime
  {
    i :| 0 <= i < |dir| && dir[i].regular
      && if i < slot.position then dir[i].mtime > slot.mtime else dir[i].mtime >= slot.mtime;
  }

  lemma NotListedLast(dir: Directory, slot: Slot, e: Entry)
    requires DistinctNames(dir) && slot.position <= |dir| && e.regular
    requires e.name == slot.name && e.mtime == slot.mtime
    requires forall i :: 0 <= i < |dir| ==> dir[i].name != slot.name
    requires !ListedLast(dir, slot)
    ensures SortFiles(dir[..slot.position] + [e] + dir[slot.position..]) != SortFiles(dir) + [Keyed(e)]
  {
    var i := NotOlder(dir, slot);
    hide SortFiles, ListedLast, DistinctNames;
    var k := slot.position;
    var d := dir[..k] + [e] + dir[k..];
    InsertedNames(dir, k, e);
    InsertedElements(dir, k, e, i);
    if SortFiles(d) == SortFiles(dir) + [Keyed(e)] {
      LastIsNewest(d, k, if i < k then i else i + 1, SortFiles(dir));
    }
  }

  lemma InsertedElements(dir: Directory, k: nat, e: Entry, i: nat)
    requires k <= |dir| && i < |dir|
    ensures var d := dir[..k] + [e] + dir[k..];
      |d| == |dir| + 1 && d[k] == e && d[if i < k then i else i + 1] == dir[i]
  {
  }

  /** A new file as old as another one that the iterator delivers after it: the new message is not the last. */
  lemma EqualTimesExample()
    ensures var dir, slot := [Entry("b", 5, true, "")], Slot("a", 5, 0);
      && DistinctNames(dir) && !ListedLast(dir, slot)
      && SortFiles(WriteFile(dir, slot, "").value) != SortFiles(dir) + [Keyed(NewFile(slot, ""))]
  {
    hide SortFiles;
    var dir, slot := [Entry("b", 5, true, "")], Slot("a", 5, 0);
    assert dir[0].mtime == slot.mtime && slot.position <= 0;
    assert dir[0].name != slot.name;
    WriteAppendsIff(dir, slot, "");
  }

  // ---------------------------------------------------------------- the abstract mailbox

  type Boxes = map<string, seq<SendMessage>>

  predicate GoodFiles(dir: Directory) {
    forall i :: 0 <= i < |dir| && dir[i].regular ==> InflateSend(dir[i].bytes).Ok?
  }

  function Stored(e: Entry): SendMessage {
    match InflateSend(e.bytes)
    case Ok(m) => m
    case _ => SendMessage("", [], "", "", [])
  }

  function StoredTitle(e: Entry): string {
    Stored(e).title
  }

  function Mail(dir: Directory): (box: seq<SendMessage>)
    ensures |box| == |SortFiles(dir)|
    ensures forall i :: 0 <= i < |box| ==> box[i] == Stored(SortFiles(dir)[i].1)
  {
    Values(Map(SortFiles(dir), Stored))
  }

  ghost predicate SaneDirectory(dir: Directory) {
    DistinctNames(dir) && GoodFiles(dir)
  }

  ghost predicate Sane(dirs: map<string, Directory>) {
    forall u :: u in dirs ==> SaneDirectory(dirs[u])
  }

  function BoxesOf(dirs: map<string, Directory>): Boxes {
    map u | u in dirs :: Mail(dirs[u])
  }

  function BoxOf(boxes: Boxes, username: string): seq<SendMessage> {
    if username in boxes then boxes[username] else []
  }

  function Titles(box: seq<SendMessage>): (r: seq<string>)
    ensures |r| == |box| && forall i :: 0 <= i < |r| ==> r[i] == box[i].title
  {
    seq(|box|, i requires 0 <= i < |box| => box[i].title)
  }

  lemma GoodPrefix(dir: Directory)
    requires dir != [] && GoodFiles(dir)
    ensures GoodFiles(dir[..|dir| - 1])
    ensures dir[|dir| - 1].regular ==> MessageFromFile(dir[|dir| - 1].bytes) == Success(Stored(dir[|dir| - 1]))
  {
    hide InflateSend;
    var before := dir[..|dir| - 1];
    forall i | 0 <= i < |before| && before[i].regular ensures InflateSend(before[i].bytes).Ok? {
      assert before[i] == dir[i];
    }
  }

  lemma {:induction false} SortTitlesAgree(dir: Directory)
    requires GoodFiles(dir)
    ensures SortTitles(dir) == Success(Map(SortFiles(dir), StoredTitle))
    decreases |dir|
  {
    hide GoodFiles, MessageFromFile, Stored;
    if dir != [] {
      var before, e := dir[..|dir| - 1], dir[|dir| - 1];
      GoodPrefix(dir);
      SortTitlesAgree(before);
      if e.regular {
        MapInsert(SortFiles(before), StoredTitle, e.mtime, e);
      }
    }
  }

  /** A listing succeeds only when every regular file can be read. */
  lemma {:induction false} TitlesNeedGoodFiles(dir: Directory)
    requires SortTitles(dir).Success?
    ensures GoodFiles(dir)
    decreases |dir|
  {
    hide InflateSend;
    if dir != [] {
      TitlesNeedGoodFiles(dir[..|dir| - 1]);
      forall i | 0 <= i < |dir| && dir[i].regular ensures InflateSend(dir[i].bytes).Ok? {
        assert i < |dir| - 1 ==> dir[..|dir| - 1][i] == dir[i];
      }
    }
  }

  /** Listing and indexing agree, in every directory: the list succeeds exactly when every regular file can be
      read; then entry `i` of it is the title of the message that index `i` reads, and no other index reads
      anything. Whatever an index reads, with or without a list, is the message at that place of the order. */
  lemma ListAndIndexAgree(dirs: map<string, Directory>, username: string)
    ensures ListSpec(dirs, username).Success? <==> username in dirs && GoodFiles(dirs[username])
    ensures ListSpec(dirs, username).Success? ==>
              var list := ListSpec(dirs, username).value;
              && list == Titles(Mail(dirs[username]))
              && (forall i: int :: 0 <= i < |list| <==> ReadSpec(dirs, username, i).Success?)
    ensures forall i: int :: ReadSpec(dirs, username, i).Success? ==>
              && username in dirs && 0 <= i < |Mail(dirs[username])|
              && ReadSpec(dirs, username, i).value == Mail(dirs[username])[i]
  {
    hide GoodFiles, InflateSend, SortFiles;
    if username in dirs {
      var dir := dirs[username];
      if SortTitles(dir).Success? {
        TitlesNeedGoodFiles(dir);
      }
      if GoodFiles(dir) {
        SortTitlesAgree(dir);
        forall i: int | 0 <= i < |SortFiles(dir)|
          ensures MessageFromFile(SortFiles(dir)[i].1.bytes) == Success(Stored(SortFiles(dir)[i].1))
        {
          SortedFileGood(dir, i);
        }
      }
    }
  }

  /** Every title of a list is one line. */
  lemma ListedTitlesOneLine(dirs: map<string, Directory>, username: string)
    requires ListSpec(dirs, username).Success?
    ensures AllOneLine(ListSpec(dirs, username).value)
  {
    hide InflateSend, SortFiles, GoodFiles;
    ListAndIndexAgree(dirs, username);
    var dir := dirs[username];
    forall i | 0 <= i < |SortFiles(dir)| ensures OneLine(StoredTitle(SortFiles(dir)[i].1)) {
      SortedFileGood(dir, i);
      InflateYieldsStorable(SortFiles(dir)[i].1.bytes);
    }
  }

  lemma SortedFileGood(dir: Directory, i: nat)
    requires GoodFiles(dir) && i < |SortFiles(dir)|
    ensures MessageFromFile(SortFiles(dir)[i].1.bytes) == Success(Stored(SortFiles(dir)[i].1))
  {
    SortFilesMembers(dir);
    assert SortFiles(dir)[i] in SortFiles(dir);
  }

  // ---------------------------------------------------------------- operations on boxes

  datatype FileOp =
    | Persist(mail: SendMessage, slots: seq<Slot>)
    | GetList(username: string)
    | GetMessage(username: string, index: int)
    | Remove(username: string, index: int)

  datatype FileReply =
    | Done(ok: bool)
    | Listed(titles: FileResult<seq<string>>)
    | Found(message: FileResult<SendMessage>)

  function FileStep(dirs: map<string, Directory>, op: FileOp): (map<string, Directory>, FileReply)
    requires op.Persist? ==> |op.slots| == |op.mail.receivers|
  {
    match op
    case Persist(m, slots) =>
      var (next, ok) := PersistSpec(dirs, m.receivers, slots, FileBytes(m));
      (next, Done(ok))
    case GetList(u) => (dirs, Listed(ListSpec(dirs, u)))
    case GetMessage(u, i) => (dirs, Found(ReadSpec(dirs, u, i)))
    case Remove(u, i) =>
      var (next, ok) := RemoveSpec(dirs, u, i);
      (next, Done(ok))
  }

  /** Once per occurrence in the receiver list. */
  function AppendAll(boxes: Boxes, receivers: seq<string>, m: SendMessage): Boxes
    decreases |receivers|
  {
    if receivers == [] then boxes
    else AppendAll(boxes[receivers[0] := BoxOf(boxes, receivers[0]) + [m]], receivers[1..], m)
  }

  function BoxStep(boxes: Boxes, op: FileOp): (Boxes, FileReply) {
    match op
    case Persist(m, _) => (AppendAll(boxes, m.receivers, m), Done(true))
    case GetList(u) => (boxes, Listed(if u in boxes then Success(Titles(boxes[u])) else FileError))
    case GetMessage(u, i) =>
      (boxes, Found(if 0 <= i < |BoxOf(boxes, u)| then Success(boxes[u][i]) else FileError))
    case Remove(u, i) =>
      if 0 <= i < |BoxOf(boxes, u)| then (boxes[u := boxes[u][..i] + boxes[u][i + 1..]], Done(true))
      else (boxes, Done(false))
  }

  /** Every file of this message is listed last in its directory when it is written. */
  ghost predicate AllListedLast(dirs: map<string, Directory>, receivers: seq<string>, slots: seq<Slot>, bytes: string)
    requires |receivers| == |slots|
    decreases |receivers|
  {
    receivers != [] ==>
      && ListedLast(if receivers[0] in dirs then dirs[receivers[0]] else [], slots[0])
      && AllListedLast(Deliver(dirs, receivers[0], slots[0], bytes).0, receivers[1..], slots[1..], bytes)
  }

  ghost predicate ValidOp(dirs: map<string, Directory>, op: FileOp) {
    op.Persist? ==>
      && Storable(op.mail)
      && |op.slots| == |op.mail.receivers|
      && AllListedLast(dirs, op.mail.receivers, op.slots, FileBytes(op.mail))
  }

  lemma PositionNew(dir: Directory, name: string)
    requires forall i :: 0 <= i < |dir| ==> dir[i].name != name
    ensures Position(dir, name) == |dir|
  {
  }

  lemma WriteMail(dir: Directory, slot: Slot, m: SendMessage)
    requires SaneDirectory(dir) && ListedLast(dir, slot) && Storable(m)
    ensures WriteFile(dir, slot, FileBytes(m)).Success?
    ensures SaneDirectory(WriteFile(dir, slot, FileBytes(m)).value)
    ensures Mail(WriteFile(dir, slot, FileBytes(m)).value) == Mail(dir) + [m]
  {
    hide SortFiles, InflateSend, Storable, FileBytes;
    var bytes := FileBytes(m);
    var e := NewFile(slot, bytes);
    PositionNew(dir, slot.name);
    var d := WriteFile(dir, slot, bytes).value;
    var k := slot.position;
    assert d == dir[..k] + [e] + dir[k..];
    InsertedNames(dir, k, e);
    FileReadsBack(m);
    forall i | 0 <= i < |d| && d[i].regular ensures InflateSend(d[i].bytes).Ok? {
      assert d[i] == if i < k then dir[i] else if i == k then e else dir[i - 1];
    }
    WriteAppendsIff(dir, slot, bytes);
    assert Stored(e) == m;
    assert forall i :: 0 <= i < |SortFiles(dir)| ==> SortFiles(d)[i] == SortFiles(dir)[i];
  }

  lemma FileReadsBack(m: SendMessage)
    requires Storable(m)
    ensures InflateSend(FileBytes(m)) == Ok(m)
  {
    hide InflateSend, DeflateSend, Storable;
    InflateDeflateSend(m, "\0");
  }

  lemma DeliverRefines(dirs: map<string, Directory>, receiver: string, slot: Slot, m: SendMessage)
    requires Sane(dirs) && Storable(m)
    requires ListedLast(if receiver in dirs then dirs[receiver] else [], slot)
    ensures var (next, ok) := Deliver(dirs, receiver, slot, FileBytes(m));
      && ok && Sane(next)
      && BoxesOf(next) == BoxesOf(dirs)[receiver := BoxOf(BoxesOf(dirs), receiver) + [m]]
  {
    hide FileBytes, ListedLast, SaneDirectory, Mail, WriteFile, SortFiles;
    var dir := if receiver in dirs then dirs[receiver] else [];
    EmptyDirectory();
    WriteMail(dir, slot, m);
  }

  lemma EmptyDirectory()
    ensures SaneDirectory([]) && Mail([]) == []
  {
  }

  lemma {:induction false} PersistRefines(
      dirs: map<string, Directory>, receivers: seq<string>, slots: seq<Slot>, m: SendMessage)
    requires Sane(dirs) && Storable(m) && |receivers| == |slots|
    requires AllListedLast(dirs, receivers, slots, FileBytes(m))
    ensures var (next, ok) := PersistSpec(dirs, receivers, slots, FileBytes(m));
      ok && Sane(next) && BoxesOf(next) == AppendAll(BoxesOf(dirs), receivers, m)
    decreases |receivers|
  {
    hide FileBytes, ListedLast, Sane, BoxesOf, Deliver, Storable;
    if receivers != [] {
      DeliverRefines(dirs, receivers[0], slots[0], m);
      PersistRefines(Deliver(dirs, receivers[0], slots[0], FileBytes(m)).0, receivers[1..], slots[1..], m);
    }
  }

  lemma {:induction false} RemoveNameSane(dir: Directory, name: string)
    requires SaneDirectory(dir)
    ensures SaneDirectory(RemoveName(dir, name))
    decreases |dir|
  {
    var p := Position(dir, name);
    if p < |dir| {
      RemoveNameDrops(dir, p);
      DropSane(dir, p);
    } else {
      RemoveNameAbsent(dir, name);
    }
  }

  lemma DropSane(dir: Directory, p: nat)
    requires p < |dir| && SaneDirectory(dir)
    ensures SaneDirectory(DropAt(dir, p))
  {
    hide InflateSend;
    var d := DropAt(dir, p);
    forall i | 0 <= i < |d| ensures d[i] == dir[if i < p then i else i + 1] {}
  }

  lemma {:induction false} RemoveNameAbsent(dir: Directory, name: string)
    requires forall i :: 0 <= i < |dir| ==> dir[i].name != name
    ensures RemoveName(dir, name) == dir
    decreases |dir|
  {
    if dir != [] {
      RemoveNameAbsent(dir[1..], name);
    }
  }

  lemma RemoveMail(dir: Directory, index: nat)
    requires SaneDirectory(dir) && index < |SortFiles(dir)|
    ensures var next := RemoveName(dir, SortFiles(dir)[index].1.name);
      SaneDirectory(next) && Mail(next) == Mail(dir)[..index] + Mail(dir)[index + 1..]
  {
    hide SaneDirectory, SortFiles, RemoveName;
    RemoveNameSane(dir, SortFiles(dir)[index].1.name);
    SaneNames(dir);
    RemoveAtIndex(dir, index);
    MailDrop(dir, RemoveName(dir, SortFiles(dir)[index].1.name), index);
  }

  lemma MailDrop(dir: Directory, next: Directory, index: nat)
    requires index < |SortFiles(dir)| && SortFiles(next) == SortFiles(dir)[..index] + SortFiles(dir)[index + 1..]
    ensures Mail(next) == Mail(dir)[..index] + Mail(dir)[index + 1..]
  {
    hide SortFiles, Stored;
  }

  lemma RemoveRefines(dirs: map<string, Directory>, username: string, index: int)
    requires Sane(dirs)
    ensures var (next, ok) := RemoveSpec(dirs, username, index);
      && Sane(next)
      && (BoxesOf(next), Done(ok)) == BoxStep(BoxesOf(dirs), Remove(username, index))
  {
    hide SaneDirectory, RemoveName, SortFiles;
    if username in dirs && 0 <= index < |SortFiles(dirs[username])| {
      var box := Mail(dirs[username]);
      RemoveMail(dirs[username], index);
      assert BoxesOf(dirs)[username] == box;
      BoxesUpdate(dirs, username, RemoveName(dirs[username], SortFiles(dirs[username])[index].1.name));
    }
  }

  lemma BoxesUpdate(dirs: map<string, Directory>, username: string, dir: Directory)
    ensures BoxesOf(dirs[username := dir]) == BoxesOf(dirs)[username := Mail(dir)]
  {
    hide Mail;
  }

  lemma SaneNames(dir: Directory)
    requires SaneDirectory(dir)
    ensures DistinctNames(dir) && GoodFiles(dir)
  {
  }

  /** One operation on the directories answers and changes what the same operation on the boxes does. */
  lemma StepRefines(dirs: map<string, Directory>, op: FileOp)
    requires Sane(dirs) && ValidOp(dirs, op)
    ensures var (next, reply) := FileStep(dirs, op);
      Sane(next) && (BoxesOf(next), reply) == BoxStep(BoxesOf(dirs), op)
  {
    hide FileBytes, AllListedLast, Storable, PersistSpec, RemoveSpec, SortTitles, SortFiles, SaneDirectory, GoodFiles;
    match op {
      case Persist(m, slots) => PersistRefines(dirs, m.receivers, slots, m);
      case Remove(u, i) => RemoveRefines(dirs, u, i);
      case GetList(u) =>
        if u in dirs {
          SaneNames(dirs[u]);
          ListAndIndexAgree(dirs, u);
        }
      case GetMessage(u, i) =>
        if u in dirs {
          SaneNames(dirs[u]);
          ListAndIndexAgree(dirs, u);
        }
    }
  }

  // ---------------------------------------------------------------- whole runs

  ghost function FileRun(dirs: map<string, Directory>, ops: seq<FileOp>): (map<string, Directory>, seq<FileReply>)
    requires ValidRun(dirs, ops)
    decreases |ops|
  {
    if ops == [] then (dirs, [])
    else
      var (next, reply) := FileStep(dirs, ops[0]);
      var (last, replies) := FileRun(next, ops[1..]);
      (last, [reply] + replies)
  }

  function BoxRun(boxes: Boxes, ops: seq<FileOp>): (Boxes, seq<FileReply>)
    decreases |ops|
  {
    if ops == [] then (boxes, [])
    else
      var (next, reply) := BoxStep(boxes, ops[0]);
      var (last, replies) := BoxRun(next, ops[1..]);
      (last, [reply] + replies)
  }

  ghost predicate ValidRun(dirs: map<string, Directory>, ops: seq<FileOp>)
    decreases |ops|
  {
    ops != [] ==> ValidOp(dirs, ops[0]) && ValidRun(FileStep(dirs, ops[0]).0, ops[1..])
  }

  /** Mailbox refinement: over every run of persist, list, read and delete, all replies and the final contents
      are those of one plain sequence of messages per user. */
  lemma {:induction false} RunRefines(dirs: map<string, Directory>, ops: seq<FileOp>)
    requires Sane(dirs) && ValidRun(dirs, ops)
    ensures var (last, replies) := FileRun(dirs, ops);
      Sane(last) && (BoxesOf(last), replies) == BoxRun(BoxesOf(dirs), ops)
    decreases |ops|
  {
    hide Sane, BoxesOf, FileStep, BoxStep, Storable, FileBytes, AllListedLast;
    if ops != [] {
      StepRefines(dirs, ops[0]);
      RunRefines(FileStep(dirs, ops[0]).0, ops[1..]);
    }
  }

  /** Conservation: a user's box grows by one for each time the user is named, and no other box changes. */
  lemma {:induction false} AppendAllCounts(boxes: Boxes, receivers: seq<string>, m: SendMessage, username: string)
    ensures var box := BoxOf(AppendAll(boxes, receivers, m), username);
      && |box| == |BoxOf(boxes, username)| + multiset(receivers)[username]
      && BoxOf(boxes, username) <= box
      && (forall i :: |BoxOf(boxes, username)| <= i < |box| ==> box[i] == m)
    decreases |receivers|
  {
    if receivers != [] {
      AppendAllCounts(boxes[receivers[0] := BoxOf(boxes, receivers[0]) + [m]], receivers[1..], m, username);
      assert receivers == [receivers[0]] + receivers[1..];
    }
  }
}
