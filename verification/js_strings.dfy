/**
 * The JavaScript String built-ins the config loader relies on:
 * `String.prototype.trim`, `String.prototype.split` with a one-character
 * separator, and `split(/\r?\n/)`.
 */
module JsStrings {

  /**
   * The code points `trim` strips: ECMAScript's WhiteSpace (TAB, VT, FF,
   * ZWNBSP and every "Space_Separator" code point) and LineTerminator
   * (LF, CR, LS, PS).
   */
  predicate IsWhitespace(c: char) {
    || c == '\t' || c == '\n' || c == '\U{000B}' || c == '\U{000C}' || c == '\r'
    || c == ' ' || c == '\U{00A0}' || c == '\U{1680}'
    || ('\U{2000}' <= c <= '\U{200A}')
    || c == '\U{2028}' || c == '\U{2029}' || c == '\U{202F}' || c == '\U{205F}'
    || c == '\U{3000}' || c == '\U{FEFF}'
  }

  predicate AllWhitespace(s: string) {
    forall i :: 0 <= i < |s| ==> IsWhitespace(s[i])
  }

  /** `s` is empty or starts and ends with a character `trim` keeps. */
  predicate Unpadded(s: string) {
    s == [] || (!IsWhitespace(s[0]) && !IsWhitespace(s[|s| - 1]))
  }

  /** Drops the leading whitespace of `s` (`TrimStartSuffix`, `TrimStartStripped` and `TrimStartHead` say what is left). */
  function TrimStart(s: string): string
    decreases |s|
  {
    if s != [] && IsWhitespace(s[0]) then TrimStart(s[1..]) else s
  }

  /** Drops the trailing whitespace of `s` (`TrimEndPrefix`, `TrimEndStripped` and `TrimEndEnds` say what is left). */
  function TrimEnd(s: string): string
    decreases |s|
  {
    if s != [] && IsWhitespace(s[|s| - 1]) then TrimEnd(s[..|s| - 1]) else s
  }

  /** `String.prototype.trim` (`TrimSpec` and `TrimOfPadded` characterise it). */
  function Trim(s: string): string {
    TrimEnd(TrimStart(s))
  }

  /** `TrimStart` keeps a suffix of `s`. */
  lemma {:induction false} TrimStartSuffix(s: string)
    ensures |TrimStart(s)| <= |s|
    ensures TrimStart(s) == s[|s| - |TrimStart(s)|..]
    decreases |s|
  {
    if s != [] && IsWhitespace(s[0]) {
      TrimStartSuffix(s[1..]);
      assert s[1..][|s| - 1 - |TrimStart(s)|..] == s[|s| - |TrimStart(s)|..];
    }
  }

  /** `TrimStart` drops only whitespace. */
  lemma {:induction false} TrimStartStripped(s: string)
    ensures |TrimStart(s)| <= |s|
    ensures AllWhitespace(s[..|s| - |TrimStart(s)|])
    decreases |s|
  {
    TrimStartSuffix(s);
    if s != [] && IsWhitespace(s[0]) {
      var t := s[1..];
      TrimStartStripped(t);
      var n := |s| - |TrimStart(s)|;
      assert s[..n] == [s[0]] + t[..n - 1];
    }
  }

  /** What `TrimStart` keeps does not start with whitespace. */
  lemma {:induction false} TrimStartHead(s: string)
    ensures TrimStart(s) == [] || !IsWhitespace(TrimStart(s)[0])
    decreases |s|
  {
    if s != [] && IsWhitespace(s[0]) {
      TrimStartHead(s[1..]);
    }
  }

  /** `TrimEnd` keeps a prefix of `s`. */
  lemma {:induction false} TrimEndPrefix(s: string)
    ensures |TrimEnd(s)| <= |s|
    ensures TrimEnd(s) == s[..|TrimEnd(s)|]
    decreases |s|
  {
    if s != [] && IsWhitespace(s[|s| - 1]) {
      TrimEndPrefix(s[..|s| - 1]);
    }
  }

  /** `TrimEnd` drops only whitespace. */
  lemma {:induction false} TrimEndStripped(s: string)
    ensures |TrimEnd(s)| <= |s|
    ensures AllWhitespace(s[|TrimEnd(s)|..])
    decreases |s|
  {
    TrimEndPrefix(s);
    if s != [] && IsWhitespace(s[|s| - 1]) {
      var t := s[..|s| - 1];
      TrimEndStripped(t);
      var n := |TrimEnd(s)|;
      assert s[n..] == t[n..] + [s[|s| - 1]];
    }
  }

  /** What `TrimEnd` keeps does not end with whitespace, and starts where `s` does. */
  lemma {:induction false} TrimEndEnds(s: string)
    ensures TrimEnd(s) == [] || !IsWhitespace(TrimEnd(s)[|TrimEnd(s)| - 1])
    ensures TrimEnd(s) == [] || TrimEnd(s)[0] == s[0]
    decreases |s|
  {
    if s != [] && IsWhitespace(s[|s| - 1]) {
      TrimEndEnds(s[..|s| - 1]);
    }
  }

  /**
   * Where the text kept by `trim` starts in `s`. `TrimStartSuffix` proves
   * the `else` branch is never taken; it is there only because `TrimStart`
   * carries no length postcondition of its own.
   */
  function TrimOffset(s: string): nat {
    if |TrimStart(s)| <= |s| then |s| - |TrimStart(s)| else 0
  }

  /** `Trim(s)` is the slice of `s` that starts at `TrimOffset(s)`. */
  lemma TrimSlice(s: string)
    ensures TrimOffset(s) + |Trim(s)| <= |s|
    ensures Trim(s) == s[TrimOffset(s)..TrimOffset(s) + |Trim(s)|]
  {
    TrimStartSuffix(s);
    TrimEndPrefix(TrimStart(s));
  }

  /** Only whitespace stands before the slice `trim` keeps. */
  lemma TrimBefore(s: string)
    ensures AllWhitespace(s[..TrimOffset(s)])
  {
    TrimStartStripped(s);
  }

  /** Only whitespace stands after the slice `trim` keeps. */
  lemma TrimAfter(s: string)
    ensures TrimOffset(s) + |Trim(s)| <= |s|
    ensures AllWhitespace(s[TrimOffset(s) + |Trim(s)|..])
  {
    var t := TrimStart(s);
    TrimStartSuffix(s);
    TrimEndStripped(t);
    assert t[|Trim(s)|..] == s[|s| - |t| + |Trim(s)|..];
  }

  /** What `trim` keeps neither starts nor ends with whitespace. */
  lemma TrimUnpadded(s: string)
    ensures Unpadded(Trim(s))
  {
    TrimStartHead(s);
    TrimEndEnds(TrimStart(s));
  }

  /**
   * `trim` keeps one contiguous slice of `s`, with only whitespace before
   * and after it, and that slice neither starts nor ends with whitespace.
   */
  lemma TrimSpec(s: string)
    ensures TrimOffset(s) + |Trim(s)| <= |s|
    ensures Trim(s) == s[TrimOffset(s)..TrimOffset(s) + |Trim(s)|]
    ensures AllWhitespace(s[..TrimOffset(s)])
    ensures AllWhitespace(s[TrimOffset(s) + |Trim(s)|..])
    ensures Unpadded(Trim(s))
  {
    TrimSlice(s);
    TrimBefore(s);
    TrimAfter(s);
    TrimUnpadded(s);
  }

  /** Every character of `Trim(s)` is a character of `s`. */
  lemma TrimSubstring(s: string)
    ensures forall c :: c in Trim(s) ==> c in s
  {
    TrimSpec(s);
  }

  lemma {:induction false} TrimStartOfPadded(pre: string, rest: string)
    requires AllWhitespace(pre)
    requires rest == [] || !IsWhitespace(rest[0])
    ensures TrimStart(pre + rest) == rest
    decreases |pre|
  {
    if pre != [] {
      assert (pre + rest)[1..] == pre[1..] + rest;
      TrimStartOfPadded(pre[1..], rest);
    } else {
      assert pre + rest == rest;
    }
  }

  lemma {:induction false} TrimEndOfPadded(rest: string, post: string)
    requires AllWhitespace(post)
    requires rest == [] || !IsWhitespace(rest[|rest| - 1])
    ensures TrimEnd(rest + post) == rest
    decreases |post|
  {
    if post != [] {
      var s := rest + post;
      assert s[..|s| - 1] == rest + post[..|post| - 1];
      TrimEndOfPadded(rest, post[..|post| - 1]);
    } else {
      assert rest + post == rest;
    }
  }

  /**
   * The inverse of padding: trimming an unpadded string surrounded by
   * whitespace gives that string back.
   */
  lemma TrimOfPadded(pre: string, core: string, post: string)
    requires AllWhitespace(pre) && AllWhitespace(post) && Unpadded(core)
    ensures Trim(pre + core + post) == core
  {
    if core == [] {
      assert AllWhitespace(pre + post);
      assert pre + core + post == (pre + post) + [];
      TrimStartOfPadded(pre + post, []);
    } else {
      assert pre + core + post == pre + (core + post);
      TrimStartOfPadded(pre, core + post);
      TrimEndOfPadded(core, post);
    }
  }

  /** Trimming twice is trimming once. */
  lemma TrimIdempotent(s: string)
    ensures Trim(Trim(s)) == Trim(s)
  {
    var r := Trim(s);
    TrimSpec(s);
    assert [] + r + [] == r;
    TrimOfPadded([], r, []);
  }

  // ----- split on one character -----

  /** Concatenates `parts`, putting `sep` between neighbours. */
  function Join(parts: seq<string>, sep: char): string
    requires |parts| >= 1
  {
    if |parts| == 1 then parts[0] else parts[0] + [sep] + Join(parts[1..], sep)
  }

  /**
   * `s.split(sep)` for a one-character separator: the pieces between the
   * separators, at least one (`SplitOnPieces` proves none contains `sep`,
   * `JoinSplitOn` that joining them with `sep` gives `s` back).
   */
  function SplitOn(s: string, sep: char): (parts: seq<string>)
    ensures |parts| >= 1
    decreases |s|
  {
    if s == [] then [[]]
    else
      var rest := SplitOn(s[1..], sep);
      if s[0] == sep then [[]] + rest
      else [[s[0]] + rest[0]] + rest[1..]
  }

  /** No piece of a split contains the separator. */
  lemma {:induction false} SplitOnPieces(s: string, sep: char)
    ensures forall i :: 0 <= i < |SplitOn(s, sep)| ==> sep !in SplitOn(s, sep)[i]
    decreases |s|
  {
    if s != [] {
      SplitOnPieces(s[1..], sep);
      var rest := SplitOn(s[1..], sep);
      if s[0] != sep {
        var parts := SplitOn(s, sep);
        assert parts[1..] == rest[1..];
        forall i | 0 <= i < |parts| ensures sep !in parts[i] {
          if i > 0 {
            assert parts[i] == rest[i];
          }
        }
      }
    }
  }

  /** Joining the pieces of a split with the separator gives the text back. */
  lemma {:induction false} JoinSplitOn(s: string, sep: char)
    ensures Join(SplitOn(s, sep), sep) == s
    decreases |s|
  {
    if s != [] {
      var rest := SplitOn(s[1..], sep);
      JoinSplitOn(s[1..], sep);
      if s[0] == sep {
        assert ([[]] + rest)[1..] == rest;
      } else {
        var parts := [[s[0]] + rest[0]] + rest[1..];
        assert parts[1..] == rest[1..];
        if |rest| > 1 {
          assert Join(rest, sep) == rest[0] + [sep] + Join(rest[1..], sep);
        }
        assert [s[0]] + s[1..] == s;
      }
    }
  }

  /** A separator-free prefix sticks to the first piece. */
  lemma {:induction false} SplitOnPrefix(p: string, t: string, sep: char)
    requires sep !in p
    ensures SplitOn(p + t, sep) == [p + SplitOn(t, sep)[0]] + SplitOn(t, sep)[1..]
    decreases |p|
  {
    if p == [] {
      var T := SplitOn(t, sep);
      assert p + t == t && p + T[0] == T[0];
      assert [T[0]] + T[1..] == T;
    } else {
      assert (p + t)[1..] == p[1..] + t;
      SplitOnPrefix(p[1..], t, sep);
      var T, rest := SplitOn(t, sep), SplitOn(p[1..] + t, sep);
      var pt := p + t;
      assert pt[0] == p[0] && pt[0] != sep;
      assert SplitOn(pt, sep) == [[pt[0]] + rest[0]] + rest[1..];
      assert rest[0] == p[1..] + T[0] && rest[1..] == T[1..];
      assert [p[0]] + rest[0] == p + T[0];
    }
  }

  /** Splitting undoes joining separator-free pieces. */
  lemma {:induction false} SplitOnJoin(parts: seq<string>, sep: char)
    requires |parts| >= 1
    requires forall i :: 0 <= i < |parts| ==> sep !in parts[i]
    ensures SplitOn(Join(parts, sep), sep) == parts
    decreases |parts|
  {
    if |parts| == 1 {
      assert parts[0] + [] == parts[0];
      SplitOnPrefix(parts[0], [], sep);
      assert SplitOn([], sep) == [[]];
    } else {
      var j := Join(parts[1..], sep);
      assert Join(parts, sep) == parts[0] + ([sep] + j);
      SplitOnPrefix(parts[0], [sep] + j, sep);
      assert ([sep] + j)[1..] == j;
      SplitOnJoin(parts[1..], sep);
      assert SplitOn([sep] + j, sep) == [[]] + parts[1..];
      assert parts[0] + [] == parts[0];
      assert [parts[0]] + parts[1..] == parts;
    }
  }

  /**
   * The first two pieces of a split: the text before the first separator
   * and the text between the first and the second.
   */
  lemma SplitOnFirstTwo(first: string, second: string, rest: string, sep: char)
    requires sep !in first && sep !in second && (rest == [] || rest[0] == sep)
    ensures |SplitOn(first + [sep] + second + rest, sep)| >= 2
    ensures SplitOn(first + [sep] + second + rest, sep)[0] == first
    ensures SplitOn(first + [sep] + second + rest, sep)[1] == second
  {
    var tail := [sep] + (second + rest);
    assert first + [sep] + second + rest == first + tail;
    SplitOnPrefix(first, tail, sep);
    SplitOnAfterSep(second + rest, sep);
    SplitOnPrefix(second, rest, sep);
    SplitOnLeadingSep(rest, sep);
    assert first + [] == first && second + [] == second;
  }

  lemma SplitOnAfterSep(t: string, sep: char)
    ensures SplitOn([sep] + t, sep) == [[]] + SplitOn(t, sep)
  {
  }

  lemma SplitOnLeadingSep(rest: string, sep: char)
    requires rest == [] || rest[0] == sep
    ensures SplitOn(rest, sep)[0] == []
  {
  }

  // ----- split(/\r?\n/) -----

  predicate EndsWithCR(s: string) {
    |s| > 0 && s[|s| - 1] == '\r'
  }

  function DropCR(s: string): string {
    if EndsWithCR(s) then s[..|s| - 1] else s
  }

  /**
   * `text.split(/\r?\n/)`. The pattern never matches the empty string, so
   * the left-to-right scan cuts at every LF and also consumes one CR
   * directly before it: split on LF, then drop one trailing CR from every
   * piece except the last.
   */
  function SplitLines(text: string): (lines: seq<string>)
    ensures |lines| >= 1
  {
    var raw := SplitOn(text, '\n');
    seq(|raw|, i requires 0 <= i < |raw| => if i < |raw| - 1 then DropCR(raw[i]) else raw[i])
  }

  /** No line of a split contains LF. */
  lemma SplitLinesNoLF(text: string)
    ensures forall i :: 0 <= i < |SplitLines(text)| ==> '\n' !in SplitLines(text)[i]
  {
    var raw := SplitOn(text, '\n');
    SplitOnPieces(text, '\n');
    forall i | 0 <= i < |raw| - 1 ensures '\n' !in DropCR(raw[i]) {
      assert forall c :: c in DropCR(raw[i]) ==> c in raw[i];
    }
  }

  /** Lines joined by line breaks: `crlf[i]` chooses CR LF after line `i`, else LF. */
  function JoinLines(lines: seq<string>, crlf: seq<bool>): string
    requires |lines| >= 1 && |crlf| == |lines| - 1
  {
    if |lines| == 1 then lines[0]
    else lines[0] + (if crlf[0] then "\r\n" else "\n") + JoinLines(lines[1..], crlf[1..])
  }

  /** Which line breaks of `text` are CR LF rather than LF alone. */
  function LineBreaks(text: string): (crlf: seq<bool>)
    ensures |crlf| == |SplitLines(text)| - 1
  {
    var raw := SplitOn(text, '\n');
    seq(|raw| - 1, i requires 0 <= i < |raw| - 1 => EndsWithCR(raw[i]))
  }

  /** The raw LF-separated pieces of `JoinLines(lines, crlf)`. */
  function WithCR(lines: seq<string>, crlf: seq<bool>): (raw: seq<string>)
    requires |crlf| == |lines| - 1
    ensures |raw| == |lines|
  {
    seq(|lines|, i requires 0 <= i < |lines| => if i < |crlf| && crlf[i] then lines[i] + "\r" else lines[i])
  }

  lemma {:induction false} JoinLinesAsJoin(lines: seq<string>, crlf: seq<bool>)
    requires |lines| >= 1 && |crlf| == |lines| - 1
    ensures JoinLines(lines, crlf) == Join(WithCR(lines, crlf), '\n')
    decreases |lines|
  {
    if |lines| > 1 {
      JoinLinesAsJoin(lines[1..], crlf[1..]);
      assert WithCR(lines, crlf)[1..] == WithCR(lines[1..], crlf[1..]);
      var first := lines[0] + (if crlf[0] then "\r\n" else "\n");
      assert first == WithCR(lines, crlf)[0] + ['\n'];
    }
  }

  /**
   * Splitting undoes joining: any LF-free lines, joined by any mix of LF
   * and CR LF, split back into the same lines, provided no line followed by
   * a bare LF ends in CR (that CR would be read as part of the break).
   */
  lemma SplitLinesJoinLines(lines: seq<string>, crlf: seq<bool>)
    requires |lines| >= 1 && |crlf| == |lines| - 1
    requires forall i :: 0 <= i < |lines| ==> '\n' !in lines[i]
    requires forall i :: 0 <= i < |crlf| && !crlf[i] ==> !EndsWithCR(lines[i])
    ensures SplitLines(JoinLines(lines, crlf)) == lines
  {
    var raw := WithCR(lines, crlf);
    JoinLinesAsJoin(lines, crlf);
    forall i | 0 <= i < |raw| ensures '\n' !in raw[i] {
      assert i < |crlf| && crlf[i] ==> raw[i] == lines[i] + "\r";
    }
    SplitOnJoin(raw, '\n');
    var r := SplitLines(JoinLines(lines, crlf));
    forall i | 0 <= i < |lines| ensures r[i] == lines[i] {
      if i < |crlf| && crlf[i] {
        assert raw[i][..|raw[i]| - 1] == lines[i];
      }
    }
  }

  /** Joining undoes splitting: the lines and their breaks give the text back. */
  lemma JoinLinesSplitLines(text: string)
    ensures JoinLines(SplitLines(text), LineBreaks(text)) == text
  {
    var raw := SplitOn(text, '\n');
    JoinSplitOn(text, '\n');
    var lines, crlf := SplitLines(text), LineBreaks(text);
    JoinLinesAsJoin(lines, crlf);
    var back := WithCR(lines, crlf);
    assert |back| == |raw|;
    forall i | 0 <= i < |raw| ensures back[i] == raw[i] {
      if i < |raw| - 1 {
        assert lines[i] == DropCR(raw[i]) && crlf[i] == EndsWithCR(raw[i]);
        if crlf[i] {
          assert raw[i] == raw[i][..|raw[i]| - 1] + "\r";
        }
      } else {
        assert lines[i] == raw[i];
      }
    }
    assert back == raw;
  }
}
