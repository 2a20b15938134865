/** The mail spool (`ThreadedFileManager`): one directory of message files per user. */
module FileManager {
  import opened Messages
  import opened Inflation
  import opened Multimap

  /** A directory entry. `regular` is false for subdirectories and other special files. */
  datatype Entry = Entry(name: string, mtime: int, regular: bool, bytes: string)

  /** A directory, in the order in which the directory iterator delivers it. */
  type Directory = seq<Entry>

  /** How a file operation ends: FileManagerException, or what `inflate` does besides ConversionException. */
  datatype FileResult<+T> = Success(value: T) | FileError | LengthError | Hang

  // ---------------------------------------------------------------- specification

  /** Contents of a stored message: the printed form and the NUL that `write` appends. */
  function FileBytes(m: SendMessage): string {
    DeflateSend(m) + "\0"
  }

  function MessageFromFile(bytes: string): FileResult<SendMessage> {
    match InflateSend(bytes)
    case Ok(m) => Success(m)
    case BadConversion => FileError
    case BadLength => LengthError
    case NeverReturns => Hang
  }

  /** The regular files by modification time, in iteration order where the times are equal. */
  function SortFiles(dir: Directory): (r: Sorted<Entry>)
    decreases |dir|
  {
    if dir == [] then []
    else
      var e := dir[|dir| - 1];
      var s := SortFiles(dir[..|dir| - 1]);
      if e.regular then Insert(s, e.mtime, e) else s
  }

  /** The titles by modification time; the first file that cannot be read decides the failure. */
  function SortTitles(dir: Directory): FileResult<Sorted<string>>
    decreases |dir|
  {
    if dir == [] then Success([])
    else
      match SortTitles(dir[..|dir| - 1])
      case FileError => FileError
      case LengthError => LengthError
      case Hang => Hang
      case Success(s) =>
        var e := dir[|dir| - 1];
        if !e.regular then Success(s)
        else
          match MessageFromFile(e.bytes)
          case Success(m) => Success(Insert(s, e.mtime, m.title))
          case FileError => FileError
          case LengthError => LengthError
          case Hang => Hang
  }

  function Values<V>(s: Sorted<V>): (r: seq<V>)
    ensures |r| == |s|
    ensures forall i :: 0 <= i < |s| ==> r[i] == s[i].1
  {
    seq(|s|, i requires 0 <= i < |s| => s[i].1)
  }

  function ListSpec(dirs: map<string, Directory>, username: string): FileResult<seq<string>> {
    if username !in dirs then FileError
    else
      match SortTitles(dirs[username])
      case Success(s) => Success(Values(s))
      case FileError => FileError
      case LengthError => LengthError
      case Hang => Hang
  }

  function IndexSpec(dirs: map<string, Directory>, username: string, index: int): FileResult<Entry> {
    if username !in dirs then FileError
    else
      var s := SortFiles(dirs[username]);
      if 0 <= index < |s| then Success(s[index].1) else FileError
  }

  function ReadSpec(dirs: map<string, Directory>, username: string, index: int): FileResult<SendMessage> {
    match IndexSpec(dirs, username, index)
    case Success(e) => MessageFromFile(e.bytes)
    case FileError => FileError
    case LengthError => LengthError
    case Hang => Hang
  }

  function RemoveName(dir: Directory, name: string): Directory
    decreases |dir|
  {
    if dir == [] then []
    else if dir[0].name == name then dir[1..]
    else [dir[0]] + RemoveName(dir[1..], name)
  }

  function RemoveSpec(dirs: map<string, Directory>, username: string, index: int): (map<string, Directory>, bool) {
    match IndexSpec(dirs, username, index)
    case Success(e) => (dirs[username := RemoveName(dirs[username], e.name)], true)
    case _ => (dirs, false)
  }

  /** What the system decides for one new file: its generated name, its modification time and where the
      directory iterator will show it. */
  datatype Slot = Slot(name: string, mtime: int, position: nat)

  function Position(dir: Directory, name: string): (i: nat)
    ensures i <= |dir|
    ensures i < |dir| ==> dir[i].name == name
    ensures forall j :: 0 <= j < i ==> dir[j].name != name
    decreases |dir|
  {
    if dir == [] || dir[0].name == name then 0
    else
      var k := Position(dir[1..], name);
      assert forall j :: 0 < j <= k ==> dir[j] == dir[1..][j - 1];
      k + 1
  }

  /** Opening a file for writing replaces a regular file of that name; a directory of that name is an error. */
  function WriteFile(dir: Directory, slot: Slot, bytes: string): FileResult<Directory> {
    var e := Entry(slot.name, slot.mtime, true, bytes);
    var i := Position(dir, slot.name);
    if i < |dir| then
      if dir[i].regular then Success(dir[i := e]) else FileError
    else
      var k := if slot.position <= |dir| then slot.position else |dir|;
      Success(dir[..k] + [e] + dir[k..])
  }

  /** One receiver: the directory is created when it does not exist yet. */
  function Deliver(dirs: map<string, Directory>, receiver: string, slot: Slot, bytes: string)
    : (map<string, Directory>, bool)
  {
    var dir := if receiver in dirs then dirs[receiver] else [];
    match WriteFile(dir, slot, bytes)
    case Success(d) => (dirs[receiver := d], true)
    case _ => (dirs[receiver := dir], false)
  }

  /** `persistSendMessage`: receiver by receiver, up to the first failure. */
  function PersistSpec(dirs: map<string, Directory>, receivers: seq<string>, slots: seq<Slot>, bytes: string)
    : (map<string, Directory>, bool)
    requires |receivers| == |slots|
    decreases |receivers|
  {
    if receivers == [] then (dirs, true)
    else
      var (next, ok) := Deliver(dirs, receivers[0], slots[0], bytes);
      if ok then PersistSpec(next, receivers[1..], slots[1..], bytes) else (next, false)
  }

  // ---------------------------------------------------------------- the class

  class ThreadedFileManager {
    var dirs: map<string, Directory>

    constructor ()
      ensures dirs == map[]
    {
      dirs := map[];
    }

    method PersistSendMessage(msg: SendMessage, slots: seq<Slot>) returns (ok: bool)
      requires |slots| == |msg.receivers|
      modifies this
      ensures (dirs, ok) == PersistSpec(old(dirs), msg.receivers, slots, FileBytes(msg))
    {
      hide WriteFile, DeflateSend;
      var text := PrintSend(msg);
      var bytes := text + "\0";
      ghost var whole := PersistSpec(dirs, msg.receivers, slots, bytes);
      for i := 0 to |msg.receivers|
        invariant PersistSpec(dirs, msg.receivers[i..], slots[i..], bytes) == whole
      {
        assert msg.receivers[i..][1..] == msg.receivers[i + 1..] && slots[i..][1..] == slots[i + 1..];
        var receiver := msg.receivers[i];
        var dir := if receiver in dirs then dirs[receiver] else [];
        var written := WriteFile(dir, slots[i], bytes);
        if !written.Success? {
          dirs := dirs[receiver := dir];
          return false;
        }
        dirs := dirs[receiver := written.value];
      }
      return true;
    }

    method GetMessageList(username: string) returns (r: FileResult<seq<string>>)
      ensures r == ListSpec(dirs, username)
    {
      hide InflateSend, MessageFromFile;
      if username !in dirs {
        return FileError;
      }
      var dir := dirs[username];
      var sorted: Sorted<string> := [];
      for i := 0 to |dir|
        invariant SortTitles(dir[..i]) == Success(sorted)
      {
        assert dir[..i + 1][..i] == dir[..i];
        if dir[i].regular {
          TitlesStep(dir, i);
          match MessageFromFile(dir[i].bytes) {
            case Success(m) => sorted := Insert(sorted, dir[i].mtime, m.title);
            case FileError => TitlesFail(dir, i + 1); return FileError;
            case LengthError => TitlesFail(dir, i + 1); return LengthError;
            case Hang => TitlesFail(dir, i + 1); return Hang;
          }
        }
      }
      assert dir[..|dir|] == dir;
      var list: seq<string> := [];
      for i := 0 to |sorted|
        invariant list == Values(sorted)[..i]
      {
        list := list + [sorted[i].1];
      }
      assert Values(sorted)[..|sorted|] == Values(sorted);
      return Success(list);
    }

    method GetMessageAtIndex(username: string, index: int) returns (r: FileResult<Entry>)
      ensures r == IndexSpec(dirs, username, index)
    {
      if username !in dirs {
        return FileError;
      }
      var dir := dirs[username];
      var sorted: Sorted<Entry> := [];
      for i := 0 to |dir|
        invariant sorted == SortFiles(dir[..i])
      {
        assert dir[..i + 1][..i] == dir[..i];
        if dir[i].regular {
          sorted := Insert(sorted, dir[i].mtime, dir[i]);
        }
      }
      assert dir[..|dir|] == dir;
      for i := 0 to |sorted|
        invariant index < 0 || i <= index
      {
        if i == index {
          return Success(sorted[i].1);
        }
      }
      return FileError;
    }

    method GetMessageForRead(username: string, index: int) returns (r: FileResult<SendMessage>)
      ensures r == ReadSpec(dirs, username, index)
    {
      var e := GetMessageAtIndex(username, index);
      if !e.Success? {
        return FileError;
      }
      var m := ParseSend(e.value.bytes);
      match m {
        case Ok(msg) => return Success(msg);
        case BadConversion => return FileError;
        case BadLength => return LengthError;
        case NeverReturns => return Hang;
      }
    }

    method RemoveFile(username: string, index: int) returns (ok: bool)
      modifies this
      ensures (dirs, ok) == RemoveSpec(old(dirs), username, index)
    {
      var e := GetMessageAtIndex(username, index);
      if !e.Success? {
        return false;
      }
      dirs := dirs[username := RemoveName(dirs[username], e.value.name)];
      return true;
    }
  }

  lemma TitlesStep(dir: Directory, i: nat)
    requires i < |dir| && SortTitles(dir[..i]).Success? && dir[i].regular
    ensures SortTitles(dir[..i + 1]) == match MessageFromFile(dir[i].bytes)
      case Success(m) => Success(Insert(SortTitles(dir[..i]).value, dir[i].mtime, m.title))
      case FileError => FileError
      case LengthError => LengthError
      case Hang => Hang
  {
    hide MessageFromFile;
    assert dir[..i + 1][..i] == dir[..i];
  }

  /** A file that cannot be read decides the result for every longer prefix. */
  lemma {:induction false} TitlesFail(dir: Directory, i: nat)
    requires i <= |dir| && !SortTitles(dir[..i]).Success?
    ensures SortTitles(dir) == SortTitles(dir[..i])
    decreases |dir| - i
  {
    hide MessageFromFile;
    if i == |dir| {
      assert dir[..i] == dir;
    } else {
      assert dir[..i + 1][..i] == dir[..i];
      TitlesFail(dir, i + 1);
    }
  }
}
