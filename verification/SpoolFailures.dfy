/** The mail spool where something is wrong: files that are no messages, names that are taken. */
module SpoolFailures {
  import opened Text
  import opened Messages
  import opened Inflation
  import opened FileManager
  import opened Mailbox
  import opened MailServer

  // ---------------------------------------------------------------- files that are no messages

  /** The first regular file, as the iterator delivers them, that is no message decides what becomes of a list. */
  lemma FirstBadFile(dir: Directory, i: nat)
    requires i < |dir| && dir[i].regular && !InflateSend(dir[i].bytes).Ok?
    requires forall j :: 0 <= j < i && dir[j].regular ==> InflateSend(dir[j].bytes).Ok?
    ensures SortTitles(dir)
         == match InflateSend(dir[i].bytes)
            case BadConversion => FileError
            case BadLength => LengthError
            case _ => Hang
  {
    hide InflateSend;
    forall j | 0 <= j < i && dir[..i][j].regular ensures InflateSend(dir[..i][j].bytes).Ok? {
      assert dir[..i][j] == dir[j];
    }
    SortTitlesAgree(dir[..i]);
    TitlesStep(dir, i);
    TitlesFail(dir, i + 1);
  }

  lemma NoTitlesText()
    ensures ListText([]) == "0\n"
  {
    assert PrintInt(0) == "0";
    hide PrintInt;
    assert ["0"] + [] == ["0"];
    JoinLinesOne("0");
  }

  /** LIST answers with an empty list when that file cannot be converted, and for a user without a directory; any other
      kind of bad file takes the thread with it. */
  lemma ListOfBadFiles(dirs: map<string, Directory>, username: string, i: nat)
    requires username in dirs ==>
               var dir := dirs[username];
               && i < |dir| && dir[i].regular && !InflateSend(dir[i].bytes).Ok?
               && forall j :: 0 <= j < i && dir[j].regular ==> InflateSend(dir[j].bytes).Ok?
    ensures HandleList(dirs, username)
         == if username !in dirs || InflateSend(dirs[username][i].bytes).BadConversion? then Wrote("0\n") else Dead
  {
    hide InflateSend, SortTitles, ListText;
    NoTitlesText();
    if username in dirs {
      FirstBadFile(dirs[username], i);
    }
  }

  /** READ, whatever the directory holds: the file at that place of the order alone decides. */
  lemma ReadOfAnyFile(dirs: map<string, Directory>, username: string, index: int)
    ensures HandleRead(dirs, username, index)
         == if username !in dirs || index < 0 || index >= |SortFiles(dirs[username])| then Wrote("ERR\n")
            else
              match InflateSend(SortFiles(dirs[username])[index].1.bytes)
              case Ok(m) => Wrote("OK\n" + DeflateSend(m))
              case BadConversion => Wrote("ERR\n")
              case _ => Dead
  {
    hide InflateSend, SortFiles, DeflateSend;
    assert "OK" + "\n" == "OK\n" && "ERR" + "\n" == "ERR\n";
  }

  // ---------------------------------------------------------------- names that are taken

  lemma PositionOf(dir: Directory, i: nat)
    requires DistinctNames(dir) && i < |dir|
    ensures Position(dir, dir[i].name) == i
  {
    forall j | 0 <= j < i ensures dir[j].name != dir[i].name {}
  }

  /** A generated name that a message file already has: that message is replaced, and nothing else changes. */
  lemma TakenNameReplaces(dir: Directory, slot: Slot, bytes: string, i: nat)
    requires DistinctNames(dir) && i < |dir| && dir[i].name == slot.name && dir[i].regular
    ensures WriteFile(dir, slot, bytes) == Success(dir[i := Entry(slot.name, slot.mtime, true, bytes)])
  {
    PositionOf(dir, i);
  }

  /** A name that something else than a file has: the write fails. */
  lemma TakenNameFails(dir: Directory, slot: Slot, bytes: string, i: nat)
    requires DistinctNames(dir) && i < |dir| && dir[i].name == slot.name && !dir[i].regular
    ensures WriteFile(dir, slot, bytes) == FileError
  {
    PositionOf(dir, i);
  }

  lemma {:induction false} PersistConcat(
      dirs: map<string, Directory>, a: seq<string>, b: seq<string>, x: seq<Slot>, y: seq<Slot>, bytes: string)
    requires |a| == |x| && |b| == |y|
    ensures PersistSpec(dirs, a + b, x + y, bytes)
         == var (next, ok) := PersistSpec(dirs, a, x, bytes);
            if ok then PersistSpec(next, b, y, bytes) else (next, false)
    decreases |a|
  {
    hide Deliver;
    if a == [] {
      assert a + b == b && x + y == y;
    } else {
      assert (a + b)[1..] == a[1..] + b && (x + y)[1..] == x[1..] + y;
      PersistConcat(Deliver(dirs, a[0], x[0], bytes).0, a[1..], b, x[1..], y, bytes);
    }
  }

  /** Several receivers: when the file of one of them cannot be written, SEND is answered ERR although those before it
      have got the message; they keep it, and those after it get nothing. */
  lemma PersistStops(
      s: ServerState, m: SendMessage, env: Env, k: nat, i: nat)
    requires s.session.loggedIn && |env.slots| == |m.receivers| && k < |m.receivers|
    requires PersistSpec(s.dirs, m.receivers[..k], env.slots[..k], FileBytes(m)).1
    requires var next := PersistSpec(s.dirs, m.receivers[..k], env.slots[..k], FileBytes(m)).0;
      m.receivers[k] in next &&
      var dir := next[m.receivers[k]];
      DistinctNames(dir) && i < |dir| && dir[i].name == env.slots[k].name && !dir[i].regular
    ensures Handle(s, Send(m), env)
         == (s.(dirs := PersistSpec(s.dirs, m.receivers[..k], env.slots[..k], FileBytes(m)).0), Wrote("ERR\n"))
  {
    hide FileBytes, WriteFile, PersistSpec;
    var next := PersistSpec(s.dirs, m.receivers[..k], env.slots[..k], FileBytes(m)).0;
    var dir := next[m.receivers[k]];
    assert m.receivers == m.receivers[..k] + m.receivers[k..] && env.slots == env.slots[..k] + env.slots[k..];
    PersistConcat(s.dirs, m.receivers[..k], m.receivers[k..], env.slots[..k], env.slots[k..], FileBytes(m));
    TakenNameFails(dir, env.slots[k], FileBytes(m), i);
    assert next[m.receivers[k] := dir] == next;
    FirstFails(next, m.receivers[k..], env.slots[k..], FileBytes(m));
    assert "ERR" + "\n" == "ERR\n";
  }

  lemma FirstFails(dirs: map<string, Directory>, receivers: seq<string>, slots: seq<Slot>, bytes: string)
    requires receivers != [] && |receivers| == |slots|
    requires receivers[0] in dirs && WriteFile(dirs[receivers[0]], slots[0], bytes) == FileError
    ensures PersistSpec(dirs, receivers, slots, bytes) == (dirs[receivers[0] := dirs[receivers[0]]], false)
  {
    hide WriteFile;
  }

  /** A message file, letter by letter. */
  lemma FileFormat(m: SendMessage)
    ensures FileBytes(m) == DeflateSend(m) + ['\0']
  {
    hide DeflateSend;
  }
}
