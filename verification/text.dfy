/** The JavaScript string primitives the backend relies on, over `string` (= `seq<char>`):
    `String.prototype.trim`, `startsWith`, `split(/\r?\n/)` and `Array.prototype.join`. */
module Text {

  /** The characters `String.prototype.trim` strips: the WhiteSpace and LineTerminator
      code points of ECMA-262 (tab, vertical tab, form feed, space, no-break space,
      byte order mark, the Unicode space separators, LF, CR, LS and PS). */
  predicate IsWhitespace(c: char) {
    || c == '\t' || c == '\n' || c == '\U{000B}' || c == '\U{000C}' || c == '\r' || c == ' '
    || c == '\U{00A0}' || c == '\U{1680}' || ('\U{2000}' <= c <= '\U{200A}')
    || c == '\U{2028}' || c == '\U{2029}' || c == '\U{202F}' || c == '\U{205F}'
    || c == '\U{3000}' || c == '\U{FEFF}'
  }

  predicate AllWhitespace(s: string) {
    forall i :: 0 <= i < |s| ==> IsWhitespace(s[i])
  }

  /** Strips leading whitespace. */
  function TrimStart(s: string): string {
    if |s| > 0 && IsWhitespace(s[0]) then TrimStart(s[1..]) else s
  }

  /** Strips trailing whitespace. */
  function TrimEnd(s: string): string {
    if |s| > 0 && IsWhitespace(s[|s| - 1]) then TrimEnd(s[..|s| - 1]) else s
  }

  /** `String.prototype.trim`. Its properties are stated by `TrimFacts` rather than as
      postconditions, so that the many `Trim` terms of the splitter do not drag them along. */
  function Trim(s: string): string {
    TrimEnd(TrimStart(s))
  }

  /** `TrimStart` removes a whitespace prefix and nothing else, stopping at the first
      non-whitespace character. */
  lemma {:induction false} TrimStartFacts(s: string)
    ensures var r := TrimStart(s);
            && |r| <= |s| && r == s[|s| - |r|..]
            && AllWhitespace(s[..|s| - |r|])
            && (|r| > 0 ==> !IsWhitespace(r[0]))
  {
    if |s| > 0 && IsWhitespace(s[0]) {
      TrimStartFacts(s[1..]);
      var r := TrimStart(s);
      assert s[..|s| - |r|] == [s[0]] + s[1..][..|s[1..]| - |r|];
      AllWhitespaceConcat([s[0]], s[1..][..|s[1..]| - |r|]);
    }
  }

  /** `TrimEnd` removes a whitespace suffix and nothing else, stopping at the last
      non-whitespace character. */
  lemma {:induction false} TrimEndFacts(s: string)
    ensures var r := TrimEnd(s);
            && |r| <= |s| && r == s[..|r|]
            && AllWhitespace(s[|r|..])
            && (|r| > 0 ==> !IsWhitespace(r[|r| - 1]))
  {
    if |s| > 0 && IsWhitespace(s[|s| - 1]) {
      var t := s[..|s| - 1];
      TrimEndFacts(t);
      var r := TrimEnd(s);
      assert s[|r|..] == t[|r|..] + [s[|s| - 1]];
      AllWhitespaceConcat(t[|r|..], [s[|s| - 1]]);
    }
  }

  /** `Trim(s)` is a slice of `s` that neither starts nor ends with whitespace, cut out by
      removing only whitespace; it is empty exactly when `s` is blank. */
  lemma TrimFacts(s: string)
    ensures Trim(s) == [] <==> AllWhitespace(s)
    ensures var r := Trim(s); |r| > 0 ==> !IsWhitespace(r[0]) && !IsWhitespace(r[|r| - 1])
    ensures exists lo :: 0 <= lo <= |s| - |Trim(s)| && Trim(s) == s[lo..lo + |Trim(s)|]
                         && AllWhitespace(s[..lo]) && AllWhitespace(s[lo + |Trim(s)|..])
  {
    var t := TrimStart(s);
    var r := TrimEnd(t);
    TrimStartFacts(s);
    TrimEndFacts(t);
    var lo := |s| - |t|;
    assert r == s[lo..lo + |r|];
    assert s[lo + |r|..] == t[|r|..];
    if r == [] {
      assert s == s[..lo] + t;
      AllWhitespaceConcat(s[..lo], t);
    }
  }

  lemma AllWhitespaceConcat(a: string, b: string)
    ensures AllWhitespace(a + b) <==> AllWhitespace(a) && AllWhitespace(b)
  {
    if AllWhitespace(a) && AllWhitespace(b) {
      forall i | 0 <= i < |a + b|
        ensures IsWhitespace((a + b)[i])
      {
        if i >= |a| {
          assert (a + b)[i] == b[i - |a|];
        }
      }
    }
    if AllWhitespace(a + b) {
      forall i | 0 <= i < |a|
        ensures IsWhitespace(a[i])
      {
        assert (a + b)[i] == a[i];
      }
      forall i | 0 <= i < |b|
        ensures IsWhitespace(b[i])
      {
        assert (a + b)[|a| + i] == b[i];
      }
    }
  }

  /** `String.prototype.startsWith`. */
  predicate StartsWith(s: string, prefix: string) {
    |prefix| <= |s| && s[..|prefix|] == prefix
  }

  /** Number of occurrences of `c` in `s`. */
  function Count(s: string, c: char): nat {
    if |s| == 0 then 0 else (if s[0] == c then 1 else 0) + Count(s[1..], c)
  }

  lemma {:induction false} CountConcat(a: string, b: string, c: char)
    ensures Count(a + b, c) == Count(a, c) + Count(b, c)
  {
    if |a| == 0 {
      assert a + b == b;
    } else {
      assert (a + b)[1..] == a[1..] + b;
      CountConcat(a[1..], b, c);
    }
  }

  lemma {:induction false} CountAbsent(s: string, c: char)
    requires c !in s
    ensures Count(s, c) == 0
  {
    if |s| > 0 {
      assert s[0] != c;
      assert forall x :: x in s[1..] ==> x in s;
      CountAbsent(s[1..], c);
    }
  }

  /** `Array.prototype.join(sep)`. */
  function Join(xs: seq<string>, sep: string): string {
    if |xs| == 0 then ""
    else if |xs| == 1 then xs[0]
    else xs[0] + sep + Join(xs[1..], sep)
  }

  /** With a whitespace separator, a joined text is blank exactly when every part is. */
  lemma {:induction false} JoinAllWhitespace(xs: seq<string>, sep: string)
    requires AllWhitespace(sep)
    ensures AllWhitespace(Join(xs, sep)) <==> forall i :: 0 <= i < |xs| ==> AllWhitespace(xs[i])
  {
    if |xs| > 1 {
      JoinAllWhitespace(xs[1..], sep);
      AllWhitespaceConcat(xs[0] + sep, Join(xs[1..], sep));
      AllWhitespaceConcat(xs[0], sep);
      if forall i :: 0 <= i < |xs[1..]| ==> AllWhitespace(xs[1..][i]) {
        assert forall i :: 1 <= i < |xs| ==> xs[i] == xs[1..][i - 1];
      }
    }
  }

  /** `s.split(/\r?\n/)`: the pieces between line terminators, where a terminator is an LF
      optionally preceded by one CR. A lone CR stays in its line. */
  function SplitLines(s: string): (lines: seq<string>)
    ensures |lines| == Count(s, '\n') + 1
    ensures forall i :: 0 <= i < |lines| ==> '\n' !in lines[i]
  {
    if |s| == 0 then [""]
    else if s[0] == '\n' then [""] + SplitLines(s[1..])
    else if s[0] == '\r' && |s| > 1 && s[1] == '\n' then
      assert Count(s, '\n') == Count(s[1..], '\n') == 1 + Count(s[2..], '\n');
      [""] + SplitLines(s[2..])
    else
      var rest := SplitLines(s[1..]);
      [[s[0]] + rest[0]] + rest[1..]
  }

  /** Prefixing the first part with a character prefixes the joined text with it. */
  lemma JoinConsFirst(c: char, parts: seq<string>, sep: string)
    requires |parts| > 0
    ensures Join([[c] + parts[0]] + parts[1..], sep) == [c] + Join(parts, sep)
  {
    var xs := [[c] + parts[0]] + parts[1..];
    assert xs[0] == [c] + parts[0];
    if |parts| > 1 {
      assert xs[1..] == parts[1..];
      assert Join(xs, sep) == ([c] + parts[0]) + sep + Join(parts[1..], sep);
    }
  }

  /** An empty first part puts a separator in front of the rest. */
  lemma JoinBlankFirst(rest: seq<string>, sep: string)
    requires |rest| > 0
    ensures Join([""] + rest, sep) == sep + Join(rest, sep)
  {
    assert ([""] + rest)[1..] == rest;
  }

  /** The text with the CR of every CRLF pair removed, so that each line terminator
      `split(/\r?\n/)` recognises becomes a plain LF. Any other CR is kept. */
  function DropCRBeforeLF(s: string): string {
    if |s| == 0 then ""
    else if s[0] == '\r' && |s| > 1 && s[1] == '\n' then DropCRBeforeLF(s[1..])
    else [s[0]] + DropCRBeforeLF(s[1..])
  }

  /** Text without CR has nothing to drop. */
  lemma {:induction false} DropCRFree(s: string)
    requires '\r' !in s
    ensures DropCRBeforeLF(s) == s
  {
    if |s| > 0 {
      assert forall x :: x in s[1..] ==> x in s;
      DropCRFree(s[1..]);
      assert s == [s[0]] + s[1..];
    }
  }

  /** The dropped CRs are whitespace, so dropping them keeps a text blank or non-blank. */
  lemma {:induction false} DropCRBlank(s: string)
    ensures AllWhitespace(DropCRBeforeLF(s)) <==> AllWhitespace(s)
  {
    if |s| > 0 {
      DropCRBlank(s[1..]);
      AllWhitespaceConcat([s[0]], s[1..]);
      assert s == [s[0]] + s[1..];
      if !(s[0] == '\r' && |s| > 1 && s[1] == '\n') {
        AllWhitespaceConcat([s[0]], DropCRBeforeLF(s[1..]));
      }
    }
  }

  /** Splitting on line terminators and joining the lines back with LF gives the text with every
      CRLF turned into LF: the splitter removes exactly the terminators, and a terminator is an
      LF together with the one CR right before it, if any. */
  lemma {:induction false} JoinSplitLinesAll(s: string)
    ensures Join(SplitLines(s), "\n") == DropCRBeforeLF(s)
  {
    if |s| > 0 {
      if s[0] == '\n' {
        JoinSplitLinesAll(s[1..]);
        JoinBlankFirst(SplitLines(s[1..]), "\n");
      } else if s[0] == '\r' && |s| > 1 && s[1] == '\n' {
        JoinSplitLinesAll(s[2..]);
        JoinBlankFirst(SplitLines(s[2..]), "\n");
        assert s[1..][1..] == s[2..];
        assert DropCRBeforeLF(s[1..]) == "\n" + DropCRBeforeLF(s[2..]);
      } else {
        JoinSplitLinesAll(s[1..]);
        JoinConsFirst(s[0], SplitLines(s[1..]), "\n");
      }
    }
  }

  /** Splitting a text without CR on line breaks and joining it back with LF restores it. */
  lemma JoinSplitLines(s: string)
    requires '\r' !in s
    ensures Join(SplitLines(s), "\n") == s
  {
    JoinSplitLinesAll(s);
    DropCRFree(s);
  }
}
