/** The parser for the reply of CLUSTER INFO (`src/cpp/clusterinfocommand.cpp`). */
module ClusterInfo {
  import opened Basics

  /** `info.find("\r\n", from)`. */
  function FindDelim(s: string, from: nat): (r: Option<nat>)
    ensures r.Some? ==> from <= r.value && r.value + 2 <= |s|
    decreases |s| - from
  {
    if from + 2 > |s| then None
    else if s[from] == '\r' && s[from + 1] == '\n' then Some(from)
    else FindDelim(s, from + 1)
  }

  /** No line end inside. */
  predicate OneLine(s: string) {
    FindDelim(s, 0).None?
  }

  /** The lines of a text that have a line end. */
  function TerminatedLines(s: string): seq<string>
    decreases |s|
  {
    match FindDelim(s, 0)
    case None => []
    case Some(i) => [s[..i]] + TerminatedLines(s[i + 2..])
  }

  /** What follows the last line end. */
  function Tail(s: string): string
    decreases |s|
  {
    match FindDelim(s, 0)
    case None => s
    case Some(i) => Tail(s[i + 2..])
  }

  function Print(lines: seq<string>): string {
    if lines == [] then "" else lines[0] + "\r\n" + Print(lines[1..])
  }

  /** The key and the value a line is split into: around its first colon, or the whole line
      twice if it has none, as `substr` with `npos` and `npos + 1` gives. */
  function KeyOf(line: string): string {
    match FindFirst(line, ':')
    case None => line
    case Some(i) => line[..i]
  }

  function ValueOf(line: string): string {
    match FindFirst(line, ':')
    case None => line
    case Some(i) => line[i + 1..]
  }

  function AddLine(m: map<string, string>, line: string): map<string, string> {
    if line == "" then m else m[KeyOf(line) := ValueOf(line)]
  }

  function AddLines(m: map<string, string>, lines: seq<string>): map<string, string>
    decreases |lines|
  {
    if lines == [] then m else AddLines(AddLine(m, lines[0]), lines[1..])
  }

  /** A search from the middle is a search in the rest. */
  lemma {:induction false} FindInRest(s: string, k: nat, from: nat)
    requires k <= from <= |s|
    ensures FindDelim(s, from) == match FindDelim(s[k..], from - k)
                                  case None => None
                                  case Some(i) => Some(k + i)
    decreases |s| - from
  {
    if from + 2 <= |s| && !(s[from] == '\r' && s[from + 1] == '\n') {
      FindInRest(s, k, from + 1);
    }
  }

  lemma NextLine(info: string, start: nat, end: nat, m: map<string, string>)
    requires start <= |info| && FindDelim(info, start) == Some(end)
    ensures AddLines(m, TerminatedLines(info[start..]))
         == AddLines(AddLine(m, info[start..end]), TerminatedLines(info[end + 2..]))
  {
    var rest, line := info[start..], info[start..end];
    FindInRest(info, start, start);
    assert line == rest[..end - start];
    assert info[end + 2..] == rest[end - start + 2..];
    assert TerminatedLines(rest) == [line] + TerminatedLines(info[end + 2..]);
    assert TerminatedLines(rest)[1..] == TerminatedLines(info[end + 2..]);
  }

  lemma NoMoreLines(info: string, start: nat)
    requires start <= |info| && FindDelim(info, start).None?
    ensures TerminatedLines(info[start..]) == []
  {
    FindInRest(info, start, start);
  }

  /** `parse_db_cluster_info`. */
  method ParseDbClusterInfo(info: string) returns (infoMap: map<string, string>)
    ensures infoMap == AddLines(map[], TerminatedLines(info))
  {
    infoMap := map[];
    var start := 0;
    var end := FindDelim(info, 0);
    ghost var whole := AddLines(map[], TerminatedLines(info));
    assert info[0..] == info;
    while end.Some?
      invariant start <= |info| && end == FindDelim(info, start)
      invariant AddLines(infoMap, TerminatedLines(info[start..])) == whole
      decreases |info| - start
    {
      NextLine(info, start, end.value, infoMap);
      var line := info[start..end.value];
      start := end.value + 2;
      end := FindDelim(info, start);
      if |line| == 0 {
        continue;
      }
      infoMap := infoMap[KeyOf(line) := ValueOf(line)];
    }
    NoMoreLines(info, start);
  }

  lemma {:induction false} FindAfterLine(line: string, rest: string, from: nat)
    requires from <= |line| && FindDelim(line, from).None?
    ensures FindDelim(line + "\r\n" + rest, from) == Some(|line|)
    decreases |line| - from
  {
    var s := line + "\r\n" + rest;
    if from < |line| {
      assert s[from] == line[from];
      assert from + 1 < |line| ==> s[from + 1] == line[from + 1];
      FindAfterLine(line, rest, from + 1);
    }
  }

  lemma FirstLine(line: string, rest: string)
    requires OneLine(line)
    ensures TerminatedLines(line + "\r\n" + rest) == [line] + TerminatedLines(rest)
    ensures Tail(line + "\r\n" + rest) == Tail(rest)
  {
    var s := line + "\r\n" + rest;
    FindAfterLine(line, rest, 0);
    assert s[..|line|] == line && s[|line| + 2..] == rest;
  }

  lemma PrintCons(line: string, lines: seq<string>, tail: string)
    ensures Print([line] + lines) + tail == line + "\r\n" + (Print(lines) + tail)
  {
    assert ([line] + lines)[1..] == lines;
  }

  /** Printing lines and splitting again gives the lines back; an unterminated tail is not a
      line. */
  lemma {:induction false} LinesOfPrint(lines: seq<string>, tail: string)
    requires (forall i :: 0 <= i < |lines| ==> OneLine(lines[i])) && OneLine(tail)
    ensures TerminatedLines(Print(lines) + tail) == lines
    ensures Tail(Print(lines) + tail) == tail
    decreases |lines|
  {
    if lines == [] {
      assert Print(lines) + tail == tail;
    } else {
      LinesOfPrint(lines[1..], tail);
      assert [lines[0]] + lines[1..] == lines;
      PrintCons(lines[0], lines[1..], tail);
      FirstLine(lines[0], Print(lines[1..]) + tail);
    }
  }

  lemma {:induction false} FindInFront(s: string, i: nat, from: nat)
    requires FindDelim(s, from) == Some(i)
    ensures FindDelim(s[..i], from).None?
    ensures s[i] == '\r' && s[i + 1] == '\n'
    decreases i - from
  {
    if from < i {
      FindInFront(s, i, from + 1);
    }
  }

  /** Every text is such a print, so that the lines say what the parser does on all inputs. */
  lemma {:induction false} TextIsPrint(s: string)
    ensures forall i :: 0 <= i < |TerminatedLines(s)| ==> OneLine(TerminatedLines(s)[i])
    ensures OneLine(Tail(s))
    ensures Print(TerminatedLines(s)) + Tail(s) == s
    decreases |s|
  {
    match FindDelim(s, 0)
    case None =>
      assert Print([]) + s == s;
    case Some(i) =>
      var rest := s[i + 2..];
      TextIsPrint(rest);
      FindInFront(s, i, 0);
      PrintCons(s[..i], TerminatedLines(rest), Tail(rest));
      CutAtLineEnd(s, i);
  }

  lemma CutAtLineEnd(s: string, i: nat)
    requires i + 2 <= |s| && s[i] == '\r' && s[i + 1] == '\n'
    ensures s == s[..i] + "\r\n" + s[i + 2..]
  {}

  /** The last line that sets a key decides its value; blank lines set none. */
  lemma {:induction false} LastWins(m: map<string, string>, lines: seq<string>, k: string)
    ensures Lookup(AddLines(m, lines), k) == match LastSetter(lines, k)
                                             case None => Lookup(m, k)
                                             case Some(i) => Some(ValueOf(lines[i]))
    decreases |lines|
  {
    if lines != [] {
      var n := |lines| - 1;
      LastWins(m, lines[..n], k);
      AddLinesSnoc(m, lines);
      OneLineSets(AddLines(m, lines[..n]), lines[n], k);
      SetterNext(lines, k);
    }
  }

  function Lookup(m: map<string, string>, k: string): Option<string> {
    if k in m then Some(m[k]) else None
  }

  lemma {:induction false} OneLineSets(m: map<string, string>, line: string, k: string)
    ensures Lookup(AddLine(m, line), k) == if Sets(line, k) then Some(ValueOf(line)) else Lookup(m, k)
  {
  }

  lemma {:induction false} SetterNext(lines: seq<string>, k: string)
    requires lines != []
    ensures LastSetter(lines, k) ==
            if Sets(lines[|lines| - 1], k) then Some(|lines| - 1) else LastSetter(lines[..|lines| - 1], k)
  {
  }

  predicate Sets(line: string, k: string) {
    line != "" && KeyOf(line) == k
  }

  /** The last line that sets `k`. */
  function LastSetter(lines: seq<string>, k: string): (r: Option<nat>)
    ensures match r
            case None => forall j :: 0 <= j < |lines| ==> !Sets(lines[j], k)
            case Some(i) => i < |lines| && Sets(lines[i], k) && forall j :: i < j < |lines| ==> !Sets(lines[j], k)
    decreases |lines|
  {
    if lines == [] then None
    else if Sets(lines[|lines| - 1], k) then Some(|lines| - 1)
    else LastSetter(lines[..|lines| - 1], k)
  }

  /** A `key:value` line with a key without colon is split into exactly these. */
  lemma KeyValueLine(key: string, value: string)
    requires ':' !in key
    ensures KeyOf(key + ":" + value) == key && ValueOf(key + ":" + value) == value
  {
    var line := key + ":" + value;
    FirstSkips(key, ":" + value, ':');
    assert line == key + (":" + value);
    assert line[..|key|] == key && line[|key| + 1..] == value;
  }

  function KeyValue(pair: (string, string)): string {
    pair.0 + ":" + pair.1
  }

  /** The whole statement: a reply printed from `key:value` lines, whatever unterminated tail
      follows, parses to the map in which the last value of each key wins. */
  lemma ParsesPrintedPairs(pairs: seq<(string, string)>, tail: string)
    requires forall i :: 0 <= i < |pairs| ==> ':' !in pairs[i].0 && OneLine(KeyValue(pairs[i]))
    requires OneLine(tail)
    ensures var info := Print(seq(|pairs|, i requires 0 <= i < |pairs| => KeyValue(pairs[i]))) + tail;
            AddLines(map[], TerminatedLines(info)) == PairsToMap(pairs)
  {
    var lines := seq(|pairs|, i requires 0 <= i < |pairs| => KeyValue(pairs[i]));
    LinesOfPrint(lines, tail);
    AddPairs(pairs, lines);
  }

  lemma {:induction false} AddLinesSnoc(m: map<string, string>, lines: seq<string>)
    requires lines != []
    ensures AddLines(m, lines) == AddLine(AddLines(m, lines[..|lines| - 1]), lines[|lines| - 1])
    decreases |lines|
  {
    if |lines| > 1 {
      AddLinesSnoc(AddLine(m, lines[0]), lines[1..]);
      assert lines[1..][..|lines| - 2] == lines[..|lines| - 1][1..];
    }
  }

  lemma {:induction false} AddPairs(pairs: seq<(string, string)>, lines: seq<string>)
    requires |lines| == |pairs| && forall i :: 0 <= i < |pairs| ==> ':' !in pairs[i].0 && lines[i] == KeyValue(pairs[i])
    ensures AddLines(map[], lines) == PairsToMap(pairs)
    decreases |pairs|
  {
    if pairs != [] {
      var n := |pairs| - 1;
      AddPairs(pairs[..n], lines[..n]);
      AddLinesSnoc(map[], lines);
      KeyValueLine(pairs[n].0, pairs[n].1);
    }
  }

  /** A line without a colon is its own key and its own value. */
  lemma NoColonLine(line: string)
    requires ':' !in line
    ensures KeyOf(line) == line && ValueOf(line) == line
  {
    FirstMeans(line, ':');
  }
}
