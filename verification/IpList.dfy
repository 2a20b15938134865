/** The file of locked addresses (`saveIpFile`, `loadIpFile`): one "address time" line per entry. */
module IpList {
  import opened Text
  import opened Inflation
  import opened SendFormat

  type IpMap = map<string, int>

  /** What `strtok` can return, and what survives a line: no space, newline or NUL, and not empty. */
  predicate Token(s: string) {
    s != "" && ' ' !in s && '\n' !in s && '\0' !in s
  }

  predicate Times(m: IpMap) {
    forall k :: k in m ==> TIME_MIN <= m[k] <= TIME_MAX
  }

  /** An iteration of the map: every key once. */
  ghost predicate Enumerates(order: seq<string>, m: IpMap) {
    && (forall k :: k in m <==> k in order)
    && (forall i, j :: 0 <= i < j < |order| ==> order[i] != order[j])
  }

  function IpLine(key: string, time: int): string {
    key + " " + PrintInt(time)
  }

  function IpText(order: seq<string>, m: IpMap): string
    requires forall i :: 0 <= i < |order| ==> order[i] in m
    decreases |order|
  {
    if order == [] then ""
    else IpLine(order[0], m[order[0]]) + "\n" + IpText(order[1..], m)
  }

  /** The order of `std::string` keys: byte by byte, a prefix first. */
  predicate NotAfter(a: string, b: string) {
    a == "" || (b != "" && (a[0] < b[0] || (a[0] == b[0] && NotAfter(a[1..], b[1..]))))
  }

  predicate Ascending(order: seq<string>) {
    forall i, j :: 0 <= i < j < |order| ==> NotAfter(order[i], order[j])
  }

  lemma {:induction false} KeyOrderTotal(a: string, b: string)
    ensures NotAfter(a, b) || NotAfter(b, a)
    ensures NotAfter(a, b) && NotAfter(b, a) ==> a == b
  {
    if a != "" && b != "" && a[0] == b[0] {
      KeyOrderTotal(a[1..], b[1..]);
      assert a == [a[0]] + a[1..] && b == [b[0]] + b[1..];
    }
  }

  lemma {:induction false} KeyOrderTransitive(a: string, b: string, c: string)
    requires NotAfter(a, b) && NotAfter(b, c)
    ensures NotAfter(a, c)
  {
    if a != "" && b != "" && c != "" && a[0] == b[0] == c[0] {
      KeyOrderTransitive(a[1..], b[1..], c[1..]);
    }
  }

  lemma KeyOrderExamples()
    ensures NotAfter("10.0.0.1", "9.0.0.1") && !NotAfter("9.0.0.1", "10.0.0.1")
    ensures NotAfter("10.0.0", "10.0.0.1") && !NotAfter("10.0.0.1", "10.0.0")
  {
    SamePart("10.0.0", "", ".1");
    SamePart("10.0.0", ".1", "");
    assert "10.0.0" + "" == "10.0.0" && "10.0.0" + ".1" == "10.0.0.1";
  }

  lemma {:induction false} SamePart(part: string, a: string, b: string)
    ensures NotAfter(part + a, part + b) <==> NotAfter(a, b)
    decreases |part|
  {
    if part == "" {
      assert part + a == a && part + b == b;
    } else {
      assert (part + a)[1..] == part[1..] + a && (part + b)[1..] == part[1..] + b;
      SamePart(part[1..], a, b);
    }
  }

  lemma {:induction false} FirstKey(keys: set<string>) returns (first: string)
    requires keys != {}
    ensures first in keys && forall k :: k in keys ==> NotAfter(first, k)
    decreases keys
  {
    var x :| x in keys;
    KeyOrderTotal(x, x);
    if keys - {x} == {} {
      first := x;
      assert keys == {x};
    } else {
      var y := FirstKey(keys - {x});
      KeyOrderTotal(x, y);
      first := if NotAfter(x, y) then x else y;
      forall k | k in keys ensures NotAfter(first, k) {
        if first == x && k != x {
          KeyOrderTransitive(x, y, k);
        }
      }
    }
  }

  /** A text that holds every entry of the map on one line, once, in the order of the keys. */
  ghost predicate Saves(text: string, m: IpMap) {
    exists order :: Enumerates(order, m) && Ascending(order) && text == IpText(order, m)
  }

  method SaveIpFile(m: IpMap) returns (text: string)
    ensures Saves(text, m)
  {
    hide NotAfter, IpText, PrintInt;
    ghost var order: seq<string> := [];
    text := "";
    NothingSaved(m);
    var keys := m.Keys;
    while keys != {}
      invariant keys <= m.Keys
      invariant forall k :: k in m <==> k in keys || k in order
      invariant forall i :: 0 <= i < |order| ==> order[i] in m && order[i] !in keys
      invariant forall i, j :: 0 <= i < j < |order| ==> order[i] != order[j]
      invariant Ascending(order)
      invariant forall i, k :: 0 <= i < |order| && k in keys ==> NotAfter(order[i], k)
      invariant text == IpText(order, m)
      decreases keys
    {
      ghost var first := FirstKey(keys);
      var k :| k in keys && forall other :: other in keys ==> NotAfter(k, other);
      IpTextSnoc(order, k, m);
      text := text + k + " " + PrintInt(m[k]) + "\n";
      order := order + [k];
      keys := keys - {k};
    }
    assert Enumerates(order, m);
  }

  lemma NothingSaved(m: IpMap)
    ensures IpText([], m) == ""
  {
  }

  lemma {:induction false} IpTextSnoc(order: seq<string>, k: string, m: IpMap)
    requires k in m && forall i :: 0 <= i < |order| ==> order[i] in m
    ensures IpText(order + [k], m) == IpText(order, m) + k + " " + PrintInt(m[k]) + "\n"
    decreases |order|
  {
    hide PrintInt, IpLine;
    var all := order + [k];
    if order == [] {
      assert all[1..] == [];
      NothingSaved(m);
      LineText(k, m[k]);
    } else {
      var line := IpLine(order[0], m[order[0]]) + "\n";
      assert all[1..] == order[1..] + [k];
      IpTextSnoc(order[1..], k, m);
      LineLast(line, IpText(order[1..], m), k, PrintInt(m[k]));
    }
  }

  lemma LineText(k: string, time: int)
    ensures IpLine(k, time) + "\n" + "" == "" + k + " " + PrintInt(time) + "\n"
  {
    hide PrintInt;
  }

  lemma LineLast(a: string, b: string, c: string, d: string)
    ensures a + (b + c + " " + d + "\n") == a + b + c + " " + d + "\n"
  {
  }

  // ---------------------------------------------------------------- loading

  /** `strtok` over the C string of a line. */
  function Split(s: string): (r: seq<string>)
    ensures forall i :: 0 <= i < |r| ==> r[i] != "" && ' ' !in r[i] && forall c :: c in r[i] ==> c in s
    decreases |s|
  {
    if s == "" then []
    else if s[0] == ' ' then Split(s[1..])
    else
      var i := Find(s, ' ');
      [s[..i]] + Split(s[i..])
  }

  function Tokens(line: string): seq<string> {
    Split(line[..Find(line, '\0')])
  }

  /** Undefined: a line with fewer than two tokens makes the original read past the end of its vector. */
  datatype Loading = Loaded(entries: IpMap) | Undefined

  function LoadLines(s: LineSource, acc: IpMap): Loading
    decreases |s.rest|
  {
    var n := GetLine(s);
    if n.eof then Loaded(acc)
    else
      var tokens := Tokens(n.line);
      if |tokens| < 2 then Undefined
      else
        var time := ParseInt(tokens[1], TIME_MIN, TIME_MAX);
        if time.None? then Loaded(map[])
        else LoadLines(n, if tokens[0] in acc then acc else acc[tokens[0] := time.value])
  }

  method LoadIpFile(text: string) returns (r: Loading)
    ensures r == LoadLines(Open(text), map[])
  {
    var s := Open(text);
    var entries: IpMap := map[];
    while true
      invariant LoadLines(s, entries) == LoadLines(Open(text), map[])
      decreases |s.rest|
    {
      var n := GetLine(s);
      if n.eof {
        return Loaded(entries);
      }
      var tokens := Tokens(n.line);
      if |tokens| < 2 {
        return Undefined;
      }
      var time := ParseInt(tokens[1], TIME_MIN, TIME_MAX);
      if time.None? {
        return Loaded(map[]);
      }
      if tokens[0] !in entries {
        entries := entries[tokens[0] := time.value];
      }
      s := n;
    }
  }

  // ---------------------------------------------------------------- the round trip, exactly when

  lemma SplitTwo(a: string, b: string)
    requires Token(a) && Token(b)
    ensures Split(a + " " + b) == [a, b]
  {
    var s := a + " " + b;
    assert s == a + [' '] + b;
    FindFirst(a, ' ', b);
    assert s[..|a|] == a;
    assert s[|a|..][1..] == b;
    FindNone(b, ' ');
    assert b[..|b|] == b;
    assert Split(b) == [b] + Split(b[|b|..]);
    assert Split(s[|a|..]) == Split(b);
  }

  lemma NumberToken(n: int)
    ensures Token(PrintInt(n))
  {
    PrintIntChars(n);
  }

  lemma LineTokens(key: string, time: int)
    requires Token(key)
    ensures OneLine(IpLine(key, time)) && Tokens(IpLine(key, time)) == [key, PrintInt(time)]
  {
    hide PrintInt;
    NumberToken(time);
    var line := IpLine(key, time);
    FindNone(line, '\0');
    assert line[..|line|] == line;
    SplitTwo(key, PrintInt(time));
  }

  lemma {:induction false} LoadBack(order: seq<string>, m: IpMap, previous: string, acc: IpMap)
    requires Times(m)
    requires forall i :: 0 <= i < |order| ==> order[i] in m && order[i] !in acc && Token(order[i])
    requires forall i, j :: 0 <= i < j < |order| ==> order[i] != order[j]
    requires forall k :: k in acc ==> k in m && acc[k] == m[k]
    requires forall k :: k in m ==> k in acc || k in order
    ensures LoadLines(LineSource(IpText(order, m), false, previous), acc) == Loaded(m)
    decreases |order|
  {
    hide PrintInt, ParseInt, Tokens, Token;
    if order == [] {
      assert acc == m;
    } else {
      var k := order[0];
      var line := IpLine(k, m[k]);
      LineTokens(k, m[k]);
      ParsePrintInt(m[k], TIME_MIN, TIME_MAX);
      GetLineStep(line, IpText(order[1..], m), previous);
      LoadBack(order[1..], m, line, acc[k := m[k]]);
    }
  }

  lemma SplitFirstToken(line: string)
    requires OneLine(line)
    ensures Tokens(line) != [] ==> Token(Tokens(line)[0])
  {
    var cut := line[..Find(line, '\0')];
    assert forall j :: 0 <= j < |cut| ==> cut[j] == line[j];
    assert '\0' !in cut && '\n' !in cut;
  }

  lemma {:induction false} LoadYieldsTokens(s: LineSource, acc: IpMap)
    requires OneLine(s.line) && forall k :: k in acc ==> Token(k)
    ensures var r := LoadLines(s, acc); r.Loaded? ==> forall k :: k in r.entries ==> Token(k)
    decreases |s.rest|
  {
    hide Tokens, Token, ParseInt;
    var n := GetLine(s);
    if !n.eof {
      var tokens := Tokens(n.line);
      SplitFirstToken(n.line);
      if |tokens| >= 2 {
        var time := ParseInt(tokens[1], TIME_MIN, TIME_MAX);
        if time.Some? {
          LoadYieldsTokens(n, if tokens[0] in acc then acc else acc[tokens[0] := time.value]);
        }
      }
    }
  }

  lemma LoadOrderIff(order: seq<string>, m: IpMap)
    requires Times(m) && Enumerates(order, m)
    ensures LoadLines(Open(IpText(order, m)), map[]) == Loaded(m) <==> forall k :: k in m ==> Token(k)
  {
    hide Token;
    if forall k :: k in m ==> Token(k) {
      LoadBack(order, m, "", map[]);
    } else {
      LoadYieldsTokens(Open(IpText(order, m)), map[]);
    }
  }

  /** Loading what was saved returns the map exactly when every address is a token; the empty map is included. */
  lemma SaveLoadIff(text: string, m: IpMap)
    requires Times(m) && Saves(text, m)
    ensures LoadLines(Open(text), map[]) == Loaded(m) <==> forall k :: k in m ==> Token(k)
  {
    hide Token, LoadLines;
    var order :| Enumerates(order, m) && Ascending(order) && text == IpText(order, m);
    LoadOrderIff(order, m);
  }

  /** An address with a space in it is not read back. */
  lemma SpaceExample(text: string)
    requires Saves(text, map["a b" := 1])
    ensures LoadLines(Open(text), map[]) != Loaded(map["a b" := 1])
  {
    hide LoadLines, Saves;
    var m := map["a b" := 1];
    assert "a b"[1] == ' ';
    assert "a b" in m && !Token("a b");
    SaveLoadIff(text, m);
  }

  // ---------------------------------------------------------------- files that were not saved so

  /** Words are what stands between spaces, however many: spaces in front do not count, and a word ends at the next
      space or at the end. */
  lemma Words(word: string, rest: string)
    requires word != "" && ' ' !in word
    ensures Split(" " + rest) == Split(rest) && Split("") == []
    ensures Split(word) == [word] && Split(word + " " + rest) == [word] + Split(rest)
  {
    assert (" " + rest)[1..] == rest;
    FindNone(word, ' ');
    assert word[..|word|] == word && word[|word|..] == "";
    assert Split(word) == [word] + Split(word[|word|..]);
    var s := word + " " + rest;
    assert s == word + [' '] + rest;
    FindFirst(word, ' ', rest);
    assert s[..|word|] == word && s[|word|..] == " " + rest;
    assert Split(s) == [word] + Split(s[|word|..]);
  }

  /** A line ends for `strtok` at its first NUL. */
  lemma NulEndsLine(line: string, rest: string)
    requires '\0' !in line
    ensures Tokens(line + "\0" + rest) == Split(line) == Tokens(line)
  {
    assert line + "\0" + rest == line + ['\0'] + rest;
    FindFirst(line, '\0', rest);
    assert (line + "\0" + rest)[..|line|] == line;
    FindNone(line, '\0');
    assert line[..|line|] == line;
  }

  /** A line with an address and a time; more words may follow. */
  predicate GoodLine(line: string) {
    OneLine(line) && |Tokens(line)| >= 2 && ParseInt(Tokens(line)[1], TIME_MIN, TIME_MAX).Some?
  }

  function Address(line: string): string
    requires GoodLine(line)
  {
    Tokens(line)[0]
  }

  function Time(line: string): int
    requires GoodLine(line)
  {
    ParseInt(Tokens(line)[1], TIME_MIN, TIME_MAX).value
  }

  predicate GoodLines(lines: seq<string>) {
    forall i :: 0 <= i < |lines| ==> GoodLine(lines[i])
  }

  /** The first line for an address gives its time; addresses already known keep theirs. */
  ghost predicate FirstWins(m: IpMap, known: IpMap, lines: seq<string>)
    requires GoodLines(lines)
  {
    && (forall k :: k in known ==> k in m && m[k] == known[k])
    && (forall k :: k in m ==> k in known || exists i :: 0 <= i < |lines| && Address(lines[i]) == k)
    && (forall i :: 0 <= i < |lines| ==> Address(lines[i]) in m)
    && (forall i ::
          (0 <= i < |lines| && Address(lines[i]) !in known
           && forall j :: 0 <= j < i ==> Address(lines[j]) != Address(lines[i])) ==>
            m[Address(lines[i])] == Time(lines[i]))
  }

  /** Good lines are read one by one; what follows them is read with the addresses they gave. */
  lemma {:induction false} GoodLinesThen(lines: seq<string>, tail: string, previous: string, known: IpMap)
    returns (m: IpMap, last: string)
    requires GoodLines(lines)
    ensures FirstWins(m, known, lines)
    ensures LoadLines(LineSource(JoinLines(lines) + tail, false, previous), known)
         == LoadLines(LineSource(tail, false, last), m)
    decreases |lines|
  {
    hide Tokens, ParseInt, GetLine, JoinLines;
    if lines == [] {
      m, last := known, previous;
      assert JoinLines([]) + tail == tail by { NoLines(tail); }
    } else {
      assert GoodLine(lines[0]);
      var line, others := lines[0], lines[1..];
      GetLineCons(lines, tail, previous);
      var next := if Address(line) in known then known else known[Address(line) := Time(line)];
      assert GoodLines(others);
      m, last := GoodLinesThen(others, tail, line, next);
      FirstWinsCons(m, known, next, lines);
    }
  }

  lemma FirstWinsCons(m: IpMap, known: IpMap, next: IpMap, lines: seq<string>)
    requires lines != [] && GoodLines(lines) && GoodLines(lines[1..])
    requires next == if Address(lines[0]) in known then known else known[Address(lines[0]) := Time(lines[0])]
    requires FirstWins(m, next, lines[1..])
    ensures FirstWins(m, known, lines)
  {
    hide Tokens, ParseInt, GoodLine, Address, Time;
    var others := lines[1..];
    forall k | k in m && k !in known ensures exists i :: 0 <= i < |lines| && Address(lines[i]) == k {
      if k != Address(lines[0]) {
        var i :| 0 <= i < |others| && Address(others[i]) == k;
        assert lines[i + 1] == others[i];
      }
    }
    forall i | 0 <= i < |lines| ensures Address(lines[i]) in m {
      assert i > 0 ==> lines[i] == others[i - 1];
    }
    forall i | 0 <= i < |lines| && Address(lines[i]) !in known
        && (forall j :: 0 <= j < i ==> Address(lines[j]) != Address(lines[i]))
      ensures m[Address(lines[i])] == Time(lines[i])
    {
      if i > 0 {
        assert Address(lines[0]) != Address(lines[i]);
        assert others[i - 1] == lines[i];
        forall j | 0 <= j < i - 1 ensures Address(others[j]) != Address(others[i - 1]) {
          assert lines[j + 1] == others[j];
        }
      }
    }
  }

  /** Any file, read to its end: the entries of its good lines, if there are only those, a text after the last newline
      being ignored. */
  lemma LoadGoodLines(lines: seq<string>, tail: string) returns (m: IpMap)
    requires GoodLines(lines) && OneLine(tail)
    ensures LoadLines(Open(JoinLines(lines) + tail), map[]) == Loaded(m) && FirstWins(m, map[], lines)
  {
    hide JoinLines, Tokens, FirstWins, GoodLine;
    var last;
    m, last := GoodLinesThen(lines, tail, "", map[]);
    FindNone(tail, '\n');
  }

  /** The first line that is not good decides: without a time in the second place the whole file counts as empty, and
      with fewer than two words the original reads past the end of its vector. */
  lemma LoadBadLine(lines: seq<string>, line: string, tail: string)
    requires GoodLines(lines) && OneLine(line) && !GoodLine(line)
    ensures LoadLines(Open(JoinLines(lines) + (line + "\n" + tail)), map[])
         == if |Tokens(line)| < 2 then Undefined else Loaded(map[])
  {
    hide JoinLines, Tokens, FirstWins, GetLine, ParseInt;
    var m, last := GoodLinesThen(lines, line + "\n" + tail, "", map[]);
    GetLineStep(line, tail, last);
  }

  /** The file, letter by letter, and the times it can hold. */
  lemma OneEntry(m: IpMap)
    requires "10.0.0.1" in m && m["10.0.0.1"] == 5
    ensures IpText(["10.0.0.1"], m) == "10.0.0.1 5\n"
  {
    assert ["10.0.0.1"][1..] == [];
    assert PrintInt(5) == "5";
  }

  lemma TimeBounds()
    ensures TIME_MAX == 9223372036854775807 && TIME_MIN == -9223372036854775808
  {
  }
}
