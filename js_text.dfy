/** The JavaScript string operations the cleaning pass relies on.
    A string is a sequence of characters, one per code unit for text in the
    Basic Multilingual Plane: there `|s|` plays the part of `s.length` and
    `s[..n]` of `s.slice(0, n)` when `n <= |s|`. */
module JsText {

  /** Position of the first `c` in `s` (`s.indexOf(c)` when that is not -1). */
  function IndexOf(s: string, c: char): (i: nat)
    requires c in s
    ensures i < |s| && s[i] == c
    ensures c !in s[..i]
  {
    if s[0] == c then 0
    else
      var j := IndexOf(s[1..], c);
      assert s[..j + 1] == [s[0]] + s[1..][..j];
      j + 1
  }

  /** `s.split(sep)` for a one-character separator: the pieces between
      successive separators, including empty pieces at either end. */
  function Split(s: string, sep: char): (pieces: seq<string>)
    ensures |pieces| >= 1
    decreases |s|
  {
    if sep !in s then [s]
    else
      var i := IndexOf(s, sep);
      [s[..i]] + Split(s[i + 1..], sep)
  }

  /** `pieces.join(sep)`, the inverse of `Split`. */
  function Join(pieces: seq<string>, sep: char): string
  {
    if |pieces| == 0 then ""
    else if |pieces| == 1 then pieces[0]
    else pieces[0] + [sep] + Join(pieces[1..], sep)
  }

  /** Splitting a text that starts with a separator-free piece followed by a
      separator gives that piece and then the pieces of the rest. */
  lemma {:induction false} SplitAfterPiece(a: string, sep: char, b: string)
    requires sep !in a
    ensures Split(a + [sep] + b, sep) == [a] + Split(b, sep)
  {
    var s := a + [sep] + b;
    assert s[|a|] == sep;
    var i := IndexOf(s, sep);
    assert s[..i] == a;
    assert s[i + 1..] == b;
  }

  /** No piece of a split holds the separator. */
  lemma {:induction false} SplitPiecesLackSeparator(s: string, sep: char)
    ensures forall k :: 0 <= k < |Split(s, sep)| ==> sep !in Split(s, sep)[k]
    decreases |s|
  {
    if sep in s {
      var i := IndexOf(s, sep);
      SplitPiecesLackSeparator(s[i + 1..], sep);
    }
  }

  /** The first two pieces of `a`, `sep`, `b` and a `rest` that is empty
      or starts with `sep` are `a` and `b`. */
  lemma {:induction false} SplitLeadingPieces(a: string, b: string, rest: string, sep: char)
    requires sep !in a && sep !in b
    requires rest == [] || rest[0] == sep
    ensures |Split(a + [sep] + b + rest, sep)| >= 2
    ensures Split(a + [sep] + b + rest, sep)[0] == a
    ensures Split(a + [sep] + b + rest, sep)[1] == b
  {
    var tail := b + rest;
    assert a + [sep] + b + rest == a + [sep] + tail;
    SplitAfterPiece(a, sep, tail);
    SplitPieceBeforeSeparator(b, rest, sep);
  }

  /** A separator-free piece followed by nothing or by a separator is the
      first piece of the split. */
  lemma {:induction false} SplitPieceBeforeSeparator(b: string, rest: string, sep: char)
    requires sep !in b
    requires rest == [] || rest[0] == sep
    ensures Split(b + rest, sep)[0] == b
  {
    if rest == [] {
      assert b + rest == b;
    } else {
      assert b + rest == b + [sep] + rest[1..];
      SplitAfterPiece(b, sep, rest[1..]);
    }
  }

  /** Joining the pieces of a split gives back the text. */
  lemma {:induction false} JoinSplit(s: string, sep: char)
    ensures Join(Split(s, sep), sep) == s
    decreases |s|
  {
    if sep in s {
      var i := IndexOf(s, sep);
      var rest := s[i + 1..];
      JoinSplit(rest, sep);
      assert s == s[..i] + [sep] + rest;
    }
  }

  /** Splitting is the only way to cut a text into separator-free pieces:
      any such cutting that joins back to `s` is `Split(s, sep)`. */
  lemma {:induction false} SplitUnique(pieces: seq<string>, sep: char)
    requires |pieces| >= 1
    requires forall k :: 0 <= k < |pieces| ==> sep !in pieces[k]
    ensures Split(Join(pieces, sep), sep) == pieces
  {
    if |pieces| > 1 {
      var tail := pieces[1..];
      assert Join(pieces, sep) == pieces[0] + [sep] + Join(tail, sep);
      SplitUnique(tail, sep);
      SplitAfterPiece(pieces[0], sep, Join(tail, sep));
      assert pieces == [pieces[0]] + tail;
    }
  }

  /** The first piece of a split is a prefix of the text. */
  lemma {:induction false} SplitFirstPiece(s: string, sep: char)
    ensures Split(s, sep)[0] <= s
  {
    if sep in s {
      var i := IndexOf(s, sep);
      assert Split(s, sep)[0] == s[..i];
    }
  }

  /** When a text splits into two or more pieces, it starts with the first
      piece, the separator and the second piece. */
  lemma {:induction false} SplitFirstTwo(s: string, sep: char)
    requires |Split(s, sep)| >= 2
    ensures Split(s, sep)[0] + [sep] + Split(s, sep)[1] <= s
  {
    var before, after := CutAtFirst(s, sep);
    SplitAfterPiece(before, sep, after);
    SplitFirstPiece(after, sep);
    var piece := Split(after, sep)[0];
    assert piece == after[..|piece|];
    var head := before + [sep] + piece;
    assert head == s[..|head|];
  }

  /** A text holding `sep` is the text before its first `sep`, that `sep`
      and the text after it. */
  lemma {:induction false} CutAtFirst(s: string, sep: char) returns (before: string, after: string)
    requires sep in s
    ensures s == before + [sep] + after
    ensures sep !in before
  {
    var i := IndexOf(s, sep);
    before, after := s[..i], s[i + 1..];
    assert s == before + [s[i]] + after;
  }

  /** Any text is a separator-free piece followed by either nothing or a
      text that starts with `sep`. */
  lemma {:induction false} CutBeforeFirst(s: string, sep: char) returns (piece: string, rest: string)
    ensures s == piece + rest
    ensures sep !in piece
    ensures rest == [] || rest[0] == sep
  {
    if sep in s {
      var j := IndexOf(s, sep);
      piece, rest := s[..j], s[j..];
    } else {
      piece, rest := s, [];
    }
  }

  /** The white space `String.prototype.trim` removes: the ECMAScript
      WhiteSpace and LineTerminator code points (Unicode category Zs listed
      explicitly). */
  predicate IsWhitespace(c: char)
  {
    c == '\t' || c == '\n' || c == '\U{000B}' || c == '\U{000C}' || c == '\r'
    || c == ' ' || c == '\U{00A0}' || c == '\U{1680}'
    || ('\U{2000}' <= c <= '\U{200A}')
    || c == '\U{2028}' || c == '\U{2029}' || c == '\U{202F}' || c == '\U{205F}'
    || c == '\U{3000}' || c == '\U{FEFF}'
  }

  /** Every code unit of `s` is white space (vacuously so for ""). */
  predicate IsBlank(s: string)
  {
    forall i :: 0 <= i < |s| ==> IsWhitespace(s[i])
  }

  /** A prefix of a blank text is blank. */
  lemma {:induction false} BlankPrefix(prefix: string, s: string)
    requires prefix <= s && IsBlank(s)
    ensures IsBlank(prefix)
  {
    assert forall i :: 0 <= i < |prefix| ==> prefix[i] == s[i];
  }

  /** `s` with its leading white space removed. */
  function TrimStart(s: string): (r: string)
    ensures |r| <= |s| && r == s[|s| - |r|..]
    ensures IsBlank(s[..|s| - |r|])
    ensures r == [] || !IsWhitespace(r[0])
  {
    if |s| > 0 && IsWhitespace(s[0]) then
      var r := TrimStart(s[1..]);
      assert s[..|s| - |r|] == [s[0]] + s[1..][..|s| - 1 - |r|];
      r
    else s
  }

  /** `s` with its trailing white space removed. */
  function TrimEnd(s: string): (r: string)
    ensures |r| <= |s| && r == s[..|r|]
    ensures IsBlank(s[|r|..])
    ensures r == [] || !IsWhitespace(r[|r| - 1])
  {
    if |s| > 0 && IsWhitespace(s[|s| - 1]) then
      var r := TrimEnd(s[..|s| - 1]);
      assert s[|r|..] == s[..|s| - 1][|r|..] + [s[|s| - 1]];
      r
    else s
  }

  /** A blank-free cut of `s` from the front to `t`, then of `t` from the
      back to `r`, leaves `r` as a middle piece of `s` with only white space
      around it. */
  lemma {:induction false} MiddlePiece(s: string, t: string, r: string)
    requires |t| <= |s| && t == s[|s| - |t|..] && IsBlank(s[..|s| - |t|])
    requires |r| <= |t| && r == t[..|r|] && IsBlank(t[|r|..])
    ensures exists k :: 0 <= k && k + |r| <= |s| && r == s[k..k + |r|]
              && IsBlank(s[..k]) && IsBlank(s[k + |r|..])
  {
    var k := |s| - |t|;
    assert r == s[k..k + |r|];
    assert t[|r|..] == s[k + |r|..];
  }

  /** `s.trim()`: the middle of `s`, with only white space cut off either
      end, that neither starts nor ends with white space. */
  function Trim(s: string): (r: string)
    ensures |r| <= |s|
    ensures exists k :: 0 <= k && k + |r| <= |s| && r == s[k..k + |r|]
              && IsBlank(s[..k]) && IsBlank(s[k + |r|..])
    ensures r == [] || (!IsWhitespace(r[0]) && !IsWhitespace(r[|r| - 1]))
  {
    var t := TrimStart(s);
    var r := TrimEnd(t);
    MiddlePiece(s, t, r);
    r
  }

  /** `s.trim() !== ''` exactly when `s` holds a code unit that is not white space. */
  lemma {:induction false} TrimEmptyIffBlank(s: string)
    ensures Trim(s) == "" <==> IsBlank(s)
  {
    var t := TrimStart(s);
    var k := |s| - |t|;
    if Trim(s) == "" {
      assert IsBlank(t[0..]);
      forall i | 0 <= i < |s| ensures IsWhitespace(s[i]) {
        assert s[i] == s[..k][i];
      }
    } else {
      var r := Trim(s);
      assert r[0] == t[0];
      assert t[0] == s[k];
    }
  }
}
