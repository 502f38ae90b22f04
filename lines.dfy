/** The two iterator steps `HTTPRequest::new` chains together: cutting the
    input into lines the way Rust's `BufRead::lines` does it, and keeping
    the lines before the first empty one (`take_while`). */
module Lines {
  import opened Seqs

  predicate NoLF(s: string) {
    '\n' !in s
  }

  predicate EndsWithCR(s: string) {
    |s| > 0 && s[|s| - 1] == '\r'
  }

  /** The index of the first line feed of `s`, or `|s|` when there is none. */
  function IndexOfLF(s: string): (i: nat)
    ensures i <= |s|
    ensures forall j :: 0 <= j < i ==> s[j] != '\n'
    ensures i < |s| ==> s[i] == '\n'
    decreases |s|
  {
    if s == [] || s[0] == '\n' then 0 else 1 + IndexOfLF(s[1..])
  }

  /** Drops one carriage return at the end of a line, if there is one. */
  function StripCR(line: string): string {
    if EndsWithCR(line) then line[..|line| - 1] else line
  }

  /** `BufRead::lines`: each line is read up to and including the next line
      feed, or up to the end of the input; a line feed found this way is
      dropped and then, if the line ends with a carriage return, that too.
      A final piece without a line feed is a line as it stands (a carriage
      return at its end is kept), and the empty input has no lines. */
  function SplitLines(s: string): (r: seq<string>)
    ensures forall k :: 0 <= k < |r| ==> NoLF(r[k])
    ensures r == [] <==> s == []
    decreases |s|
  {
    if s == [] then []
    else
      var i := IndexOfLF(s);
      if i == |s| then
        assert s[..i] == s;
        [s]
      else
        assert '\n' !in s[..i];
        [StripCR(s[..i])] + SplitLines(s[i + 1..])
  }

  /** A line followed by its terminator, CRLF or bare LF. */
  function Terminate(line: string, crlf: bool): string {
    line + (if crlf then "\r\n" else "\n")
  }

  /** The lines, each followed by the terminator `crlf` chooses for it. */
  function Encode(lines: seq<string>, crlf: seq<bool>): string
    requires |crlf| == |lines|
    decreases |lines|
  {
    if lines == [] then [] else Terminate(lines[0], crlf[0]) + Encode(lines[1..], crlf[1..])
  }

  /** Lines that can be written out with these terminators and read back:
      no line holds a line feed, and a line ending in a carriage return is
      terminated by CRLF (a bare LF would make that carriage return part of
      the terminator). */
  predicate Encodable(lines: seq<string>, crlf: seq<bool>) {
    && |crlf| == |lines|
    && forall k :: 0 <= k < |lines| ==> NoLF(lines[k]) && (EndsWithCR(lines[k]) ==> crlf[k])
  }

  /** `s` is the lines, terminated, followed by an unterminated `tail`. */
  predicate Reassembles(s: string, lines: seq<string>, crlf: seq<bool>, tail: string) {
    && Encodable(lines, crlf)
    && NoLF(tail)
    && s == Encode(lines, crlf) + tail
  }

  /** The lines and, when it is not empty, the unterminated tail. */
  function WithTail(lines: seq<string>, tail: string): seq<string> {
    if tail == [] then lines else lines + [tail]
  }

  lemma IndexOfLFAt(x: string, y: string)
    requires NoLF(x)
    ensures IndexOfLF(x + "\n" + y) == |x|
  {
    var s := x + "\n" + y;
    assert s[|x|] == '\n';
    assert forall j :: 0 <= j < |x| ==> s[j] == x[j];
  }

  /** Reading one terminated line gives back the line without its terminator. */
  lemma SplitLinesOfTerminated(line: string, crlf: bool, rest: string)
    requires NoLF(line) && (EndsWithCR(line) ==> crlf)
    ensures SplitLines(Terminate(line, crlf) + rest) == [line] + SplitLines(rest)
  {
    var s := Terminate(line, crlf) + rest;
    var x := if crlf then line + "\r" else line;
    assert s == x + "\n" + rest;
    assert NoLF(x) by {
      if crlf {
        assert forall j :: 0 <= j < |x| ==> x[j] == (if j < |line| then line[j] else '\r');
      }
    }
    IndexOfLFAt(x, rest);
    assert s[..|x|] == x;
    assert s[|x| + 1..] == rest;
    if crlf {
      assert x[..|x| - 1] == line;
    }
  }

  lemma EncodeCons(lines: seq<string>, crlf: seq<bool>, rest: string)
    requires Encodable(lines, crlf) && lines != []
    ensures Encodable(lines[1..], crlf[1..])
    ensures Encode(lines, crlf) + rest == Terminate(lines[0], crlf[0]) + (Encode(lines[1..], crlf[1..]) + rest)
  {
  }

  /** Encoded lines are read back exactly, whatever follows them. */
  lemma {:induction false} SplitLinesOfEncoding(lines: seq<string>, crlf: seq<bool>, rest: string)
    requires Encodable(lines, crlf)
    ensures SplitLines(Encode(lines, crlf) + rest) == lines + SplitLines(rest)
    decreases |lines|
  {
    if lines == [] {
      assert Encode(lines, crlf) + rest == rest;
    } else {
      var more := Encode(lines[1..], crlf[1..]) + rest;
      EncodeCons(lines, crlf, rest);
      SplitLinesOfEncoding(lines[1..], crlf[1..], rest);
      SplitLinesOfTerminated(lines[0], crlf[0], more);
      ConsAppend(lines, SplitLines(rest));
    }
  }

  /** Terminated lines followed by an unterminated tail are read back as
      the lines and then the tail. */
  lemma SplitLinesOfReassembly(s: string, lines: seq<string>, crlf: seq<bool>, tail: string)
    requires Reassembles(s, lines, crlf, tail)
    ensures SplitLines(s) == WithTail(lines, tail)
  {
    SplitLinesOfEncoding(lines, crlf, tail);
    if tail != [] {
      assert IndexOfLF(tail) == |tail|;
      assert tail[..|tail|] == tail;
    }
  }

  /** A raw line read up to a line feed is its stripped form terminated by
      CRLF or LF; which one is recorded by whether it ended in a carriage
      return. */
  lemma StripCRTerminates(raw: string)
    requires NoLF(raw)
    ensures NoLF(StripCR(raw)) && (EndsWithCR(StripCR(raw)) ==> EndsWithCR(raw))
    ensures Terminate(StripCR(raw), EndsWithCR(raw)) == raw + "\n"
  {
    if EndsWithCR(raw) {
      var line := StripCR(raw);
      assert line + "\r" == raw;
      assert forall j :: 0 <= j < |line| ==> line[j] == raw[j];
    }
  }

  lemma ReassemblesCons(raw: string, rest: string, lines: seq<string>, crlf: seq<bool>, tail: string)
    requires NoLF(raw) && Reassembles(rest, lines, crlf, tail)
    ensures Reassembles(raw + "\n" + rest, [StripCR(raw)] + lines, [EndsWithCR(raw)] + crlf, tail)
    ensures WithTail([StripCR(raw)] + lines, tail) == [StripCR(raw)] + WithTail(lines, tail)
  {
    var lines', crlf' := [StripCR(raw)] + lines, [EndsWithCR(raw)] + crlf;
    StripCRTerminates(raw);
    assert lines'[1..] == lines && crlf'[1..] == crlf;
    assert Encode(lines', crlf') == raw + "\n" + Encode(lines, crlf);
    assert Encodable(lines', crlf');
  }

  /** A final piece without a line feed is one line, kept as it is. */
  lemma SplitLinesUnterminated(s: string)
    requires s != [] && IndexOfLF(s) == |s|
    ensures Reassembles(s, [], [], s) && SplitLines(s) == WithTail([], s)
  {
    assert NoLF(s) by {
      assert forall j :: 0 <= j < |s| ==> s[j] != '\n';
    }
    assert s[..|s|] == s;
    assert Encode([], []) + s == s;
  }

  /** A piece ending at a line feed is its raw line, the line feed, and the
      rest of the input. */
  lemma SplitLinesAtLF(s: string)
    requires IndexOfLF(s) < |s|
    ensures var i := IndexOfLF(s);
            && NoLF(s[..i])
            && s == s[..i] + "\n" + s[i + 1..]
            && SplitLines(s) == [StripCR(s[..i])] + SplitLines(s[i + 1..])
  {
    var i := IndexOfLF(s);
    assert '\n' !in s[..i];
    SplitAt(s, i);
  }

  /** Every input is its lines, each with the terminator `SplitLines`
      removed, followed by an unterminated tail. */
  lemma {:induction false} SplitLinesReassembles(s: string)
    ensures exists lines, crlf, tail ::
              Reassembles(s, lines, crlf, tail) && SplitLines(s) == WithTail(lines, tail)
    decreases |s|
  {
    if s == [] {
      var lines: seq<string>, crlf: seq<bool>, tail: string := [], [], [];
      assert Reassembles(s, lines, crlf, tail) && SplitLines(s) == WithTail(lines, tail);
    } else if IndexOfLF(s) == |s| {
      SplitLinesUnterminated(s);
    } else {
      var i := IndexOfLF(s);
      var raw, rest := s[..i], s[i + 1..];
      SplitLinesAtLF(s);
      SplitLinesReassembles(rest);
      var lines, crlf, tail :| Reassembles(rest, lines, crlf, tail) && SplitLines(rest) == WithTail(lines, tail);
      ReassemblesCons(raw, rest, lines, crlf, tail);
    }
  }

  /** `SplitLines(s)` is `r` exactly when `s` is `r`'s lines, terminated by
      LF or CRLF, the last of them possibly left unterminated. */
  lemma SplitLinesCharacterization(s: string, r: seq<string>)
    ensures SplitLines(s) == r <==>
            exists lines, crlf, tail :: Reassembles(s, lines, crlf, tail) && r == WithTail(lines, tail)
  {
    SplitLinesReassembles(s);
    forall lines, crlf, tail | Reassembles(s, lines, crlf, tail) && r == WithTail(lines, tail)
      ensures SplitLines(s) == r
    {
      SplitLinesOfReassembly(s, lines, crlf, tail);
    }
  }

  /** `take_while(|line| !line.is_empty())`: the longest prefix of
      non-empty lines. */
  function TakeWhileNonEmpty(lines: seq<string>): (r: seq<string>)
    ensures r <= lines
    ensures forall k :: 0 <= k < |r| ==> r[k] != []
    ensures |r| < |lines| ==> lines[|r|] == []
    decreases |lines|
  {
    if lines == [] || lines[0] == [] then []
    else [lines[0]] + TakeWhileNonEmpty(lines[1..])
  }

  lemma {:induction false} TakeWhileNonEmptyStopsAtBlank(head: seq<string>, rest: seq<string>)
    requires forall k :: 0 <= k < |head| ==> head[k] != []
    ensures TakeWhileNonEmpty(head + [[]] + rest) == head
    decreases |head|
  {
    if head != [] {
      assert (head + [[]] + rest)[1..] == head[1..] + [[]] + rest;
      TakeWhileNonEmptyStopsAtBlank(head[1..], rest);
      assert head == [head[0]] + head[1..];
    }
  }
}
