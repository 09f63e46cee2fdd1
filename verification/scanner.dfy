/** bufio.Scanner with the bufio.ScanLines split function: the lines of a byte
    buffer, each without its "\n" and without one trailing "\r"; a final line
    with no "\n" is still a line, and an empty buffer has no lines. */
module Scanner {
  import opened GoStrings

  /** ScanLines' dropCR: removes one carriage return at the end of a line. */
  function DropCR(s: string): (r: string)
    ensures r == s || (|s| > 0 && s[|s| - 1] == '\r' && r == s[..|s| - 1])
  {
    if |s| > 0 && s[|s| - 1] == '\r' then s[..|s| - 1] else s
  }

  /** The tokens successive calls to Scan produce. */
  function Lines(data: string): (r: seq<string>)
    ensures forall k :: 0 <= k < |r| ==> '\n' !in r[k]
    ensures |r| == 0 <==> |data| == 0
    ensures |r| <= |data|
    decreases |data|
  {
    if |data| == 0 then []
    else
      var e := IndexOf(data, '\n');
      if e < |data| then [DropCR(data[..e])] + Lines(data[e + 1..])
      else [DropCR(data)]
  }

  /** A line that ScanLines hands back as written. */
  predicate PlainLine(line: string)
  {
    '\n' !in line && (|line| == 0 || line[|line| - 1] != '\r')
  }

  /** Lines each ended by `eol`, which is "\n" or "\r\n". */
  function Terminated(lines: seq<string>, eol: string): string
  {
    if |lines| == 0 then "" else lines[0] + eol + Terminated(lines[1..], eol)
  }

  lemma ScanFirstLine(line: string, eol: string, rest: string)
    requires PlainLine(line)
    requires eol == "\n" || eol == "\r\n"
    ensures Lines(line + eol + rest) == [line] + Lines(rest)
  {
    if eol == "\n" {
      ScanLine(line, line, rest);
    } else {
      ScanCRLF(line, rest);
    }
  }

  lemma ScanCRLF(line: string, rest: string)
    requires PlainLine(line)
    ensures Lines(line + "\r\n" + rest) == [line] + Lines(rest)
  {
    CarriageReturnDropped(line);
    ScanLine(line + "\r", line, rest);
    SplitCRLF(line, rest);
  }

  /** A plain line with a carriage return added has no line feed, and DropCR
      takes the carriage return off again. */
  lemma CarriageReturnDropped(line: string)
    requires PlainLine(line)
    ensures '\n' !in line + "\r" && DropCR(line + "\r") == line
  {
    var raw := line + "\r";
    assert forall j :: 0 <= j < |line| ==> raw[j] == line[j];
    assert raw[..|line|] == line;
  }

  lemma SplitCRLF(line: string, rest: string)
    ensures line + "\r\n" + rest == line + "\r" + "\n" + rest
  {
    var crlf: string := "\r\n";
    assert crlf == "\r" + "\n";
    SeqAssoc(line, "\r", "\n");
  }

  /** The first token of `raw` + "\n" + `rest`, for a `raw` without line
      feeds that DropCR turns into `line`. */
  lemma ScanLine(raw: string, line: string, rest: string)
    requires '\n' !in raw && DropCR(raw) == line
    ensures Lines(raw + "\n" + rest) == [line] + Lines(rest)
  {
    var data := raw + "\n" + rest;
    var e := |raw|;
    assert data[e] == '\n';
    assert forall j :: 0 <= j < e ==> data[j] == raw[j];
    assert IndexOf(data, '\n') == e;
    assert data[..e] == raw;
    assert data[e + 1..] == rest;
  }

  lemma ScanLastLine(last: string)
    requires PlainLine(last)
    ensures Lines(last) == if last == "" then [] else [last]
  {
    if last != "" {
      assert IndexOf(last, '\n') == |last|;
    }
  }

  lemma TerminatedCons(lines: seq<string>, eol: string, last: string)
    requires |lines| > 0
    ensures Terminated(lines, eol) + last == lines[0] + eol + (Terminated(lines[1..], eol) + last)
  {
    var a, b := lines[0] + eol, Terminated(lines[1..], eol);
    assert Terminated(lines, eol) == a + b;
    assert (a + b) + last == a + (b + last);
  }

  lemma ConsSplit(lines: seq<string>, extra: seq<string>)
    requires |lines| > 0
    ensures [lines[0]] + (lines[1..] + extra) == lines + extra
  {
    assert [lines[0]] + lines[1..] == lines;
  }

  /** Scanning recovers the lines that were written, whether they end in "\n"
      or "\r\n", and whether or not one more unterminated line follows. */
  lemma {:induction false} ScanTerminated(lines: seq<string>, eol: string, last: string)
    requires forall k :: 0 <= k < |lines| ==> PlainLine(lines[k])
    requires eol == "\n" || eol == "\r\n"
    requires PlainLine(last)
    ensures Lines(Terminated(lines, eol) + last) == lines + (if last == "" then [] else [last])
    decreases |lines|
  {
    if |lines| == 0 {
      assert Terminated(lines, eol) + last == last;
      ScanLastLine(last);
    } else {
      var extra := if last == "" then [] else [last];
      ScanTerminated(lines[1..], eol, last);
      var tail := Terminated(lines[1..], eol) + last;
      TerminatedCons(lines, eol, last);
      ScanFirstLine(lines[0], eol, tail);
      assert Lines(Terminated(lines, eol) + last) == [lines[0]] + Lines(tail);
      assert Lines(tail) == lines[1..] + extra;
      ConsSplit(lines, extra);
    }
  }

  /** Raw lines, each followed by a line feed: every buffer is such lines
      followed by a last stretch without a line feed. */
  function JoinNL(raws: seq<string>): string
  {
    if |raws| == 0 then "" else raws[0] + "\n" + JoinNL(raws[1..])
  }

  /** DropCR applied to each raw line, in order. */
  function MapDropCR(raws: seq<string>): (r: seq<string>)
    ensures |r| == |raws|
  {
    if |raws| == 0 then [] else [DropCR(raws[0])] + MapDropCR(raws[1..])
  }

  predicate NoLineFeeds(raws: seq<string>)
  {
    forall k :: 0 <= k < |raws| ==> '\n' !in raws[k]
  }

  /** A last stretch without a line feed is one token, with one trailing
      carriage return dropped, unless it is empty. */
  lemma ScanFinal(last: string)
    requires '\n' !in last
    ensures Lines(last) == if last == "" then [] else [DropCR(last)]
  {
    if last != "" {
      assert IndexOf(last, '\n') == |last|;
    }
  }

  /** Scanning any buffer: each line-feed-terminated line comes back with one
      trailing carriage return dropped, whatever the other lines end in, and
      a nonempty unterminated tail comes back the same way. */
  lemma {:induction false} ScanAll(raws: seq<string>, last: string)
    requires NoLineFeeds(raws) && '\n' !in last
    ensures Lines(JoinNL(raws) + last) == MapDropCR(raws) + (if last == "" then [] else [DropCR(last)])
    decreases |raws|
  {
    var extra := if last == "" then [] else [DropCR(last)];
    if |raws| == 0 {
      assert JoinNL(raws) + last == last;
      ScanFinal(last);
    } else {
      var rest := raws[1..];
      assert NoLineFeeds(rest) by {
        assert forall k :: 0 <= k < |rest| ==> rest[k] == raws[k + 1];
      }
      ScanAll(rest, last);
      var tail := JoinNL(rest) + last;
      var head := raws[0] + "\n";
      assert JoinNL(raws) + last == raws[0] + "\n" + tail by {
        assert JoinNL(raws) == head + JoinNL(rest);
        GoStrings.SeqAssoc(head, JoinNL(rest), last);
      }
      ScanLine(raws[0], DropCR(raws[0]), tail);
      assert MapDropCR(raws) == [DropCR(raws[0])] + MapDropCR(rest);
      GoStrings.SeqAssoc([DropCR(raws[0])], MapDropCR(rest), extra);
    }
  }
}
