/** The handful of Python `str` operations the analyser relies on, written out
    with Python's semantics: `startswith`, `endswith`, `split` (first piece and
    single-character split), `join` and `replace`. */
module Strings {

  predicate StartsWith(s: string, p: string)
  {
    |p| <= |s| && s[..|p|] == p
  }

  predicate EndsWith(s: string, p: string)
  {
    |p| <= |s| && s[|s| - |p|..] == p
  }

  /** Python's `p in s` for strings: `p` occurs at some position of `s`. */
  predicate Occurs(s: string, p: string)
    decreases |s|
  {
    StartsWith(s, p) || (|s| > 0 && Occurs(s[1..], p))
  }

  /** `s.split(sep)[0]`: the part of `s` before the first occurrence of `sep`,
      or all of `s` when `sep` does not occur. (Python refuses an empty
      separator with a ValueError.) */
  function FirstPiece(s: string, sep: string): (r: string)
    requires |sep| > 0
    ensures StartsWith(s, r)
    ensures forall j :: 0 <= j < |r| ==> !StartsWith(s[j..], sep)
    ensures |r| < |s| ==> StartsWith(s[|r|..], sep)
    decreases |s|
  {
    if StartsWith(s, sep) then ""
    else if s == "" then ""
    else
      var rest := FirstPiece(s[1..], sep);
      assert forall j :: 1 <= j <= |s| ==> s[j..] == s[1..][j - 1..];
      [s[0]] + rest
  }

  /** `s.split(c)` for a one-character separator: never empty, and no piece
      holds the separator. */
  function Split(s: string, c: char): (r: seq<string>)
    ensures |r| >= 1
    ensures forall i :: 0 <= i < |r| ==> c !in r[i]
    decreases |s|
  {
    if s == "" then [""]
    else
      var rest := Split(s[1..], c);
      if s[0] == c then [""] + rest else [[s[0]] + rest[0]] + rest[1..]
  }

  /** `sep.join(parts)`. */
  function Join(parts: seq<string>, sep: string): string
    decreases |parts|
  {
    if |parts| == 0 then ""
    else if |parts| == 1 then parts[0]
    else parts[0] + sep + Join(parts[1..], sep)
  }

  /** `parts[::-1]`. */
  function Reverse(parts: seq<string>): (r: seq<string>)
    ensures |r| == |parts|
    decreases |parts|
  {
    if parts == [] then [] else [parts[|parts| - 1]] + Reverse(parts[..|parts| - 1])
  }

  /** `s.replace(pat, repl)`: every non-overlapping occurrence of `pat`,
      scanning left to right, is replaced; an empty `pat` inserts `repl`
      before every character and at the end. */
  function ReplaceAll(s: string, pat: string, repl: string): string
    decreases |s|
  {
    if |pat| == 0 then
      (if s == "" then repl else repl + [s[0]] + ReplaceAll(s[1..], pat, repl))
    else if StartsWith(s, pat) then repl + ReplaceAll(s[|pat|..], pat, repl)
    else if s == "" then ""
    else [s[0]] + ReplaceAll(s[1..], pat, repl)
  }

  /** Joining the pieces of a split with the same separator gives the string
      back. */
  lemma {:induction false} JoinSplit(s: string, c: char)
    ensures Join(Split(s, c), [c]) == s
    decreases |s|
  {
    if s != "" {
      var rest := Split(s[1..], c);
      JoinSplit(s[1..], c);
      if s[0] == c {
        assert Split(s, c) == [""] + rest;
        assert ([""] + rest)[1..] == rest;
      } else {
        var head := [[s[0]] + rest[0]];
        assert Split(s, c) == head + rest[1..];
        if |rest| == 1 {
          assert Join(Split(s, c), [c]) == [s[0]] + rest[0];
        } else {
          assert (head + rest[1..])[1..] == rest[1..];
          assert Join(rest, [c]) == rest[0] + [c] + Join(rest[1..], [c]);
        }
      }
    }
  }

  /** A one-character separator occurs exactly when the character is in the
      string. */
  lemma {:induction false} OccursChar(s: string, c: char)
    ensures Occurs(s, [c]) <==> c in s
    decreases |s|
  {
    if s != "" {
      OccursChar(s[1..], c);
      assert s == [s[0]] + s[1..];
    }
  }

  /** The first piece is the whole string exactly when the separator does not
      occur in it. */
  lemma {:induction false} FirstPieceWhole(s: string, sep: string)
    requires |sep| > 0
    ensures FirstPiece(s, sep) == s <==> !Occurs(s, sep)
    decreases |s|
  {
    if s != "" && !StartsWith(s, sep) {
      FirstPieceWhole(s[1..], sep);
    }
  }

  /** The first piece of `a + sep + b` is `a` when `sep` does not occur in `a`
      (nor straddles its end). */
  lemma {:induction false} FirstPieceBefore(a: string, c: char, b: string)
    requires c !in a
    ensures FirstPiece(a + [c] + b, [c]) == a
    decreases |a|
  {
    var s := a + [c] + b;
    if a == "" {
      assert s[..1] == [c];
    } else {
      assert s[1..] == a[1..] + [c] + b;
      assert s[0] == a[0] != c;
      FirstPieceBefore(a[1..], c, b);
    }
  }

  /** Replacing a pattern that does not occur changes nothing. */
  lemma {:induction false} ReplaceAbsent(s: string, pat: string, repl: string)
    requires |pat| > 0 && !Occurs(s, pat)
    ensures ReplaceAll(s, pat, repl) == s
    decreases |s|
  {
    if s != "" {
      ReplaceAbsent(s[1..], pat, repl);
    }
  }

  /** A string that starts with the pattern gets the replacement in front. */
  lemma {:induction false} ReplaceLeading(pat: string, rest: string, repl: string)
    requires |pat| > 0
    ensures ReplaceAll(pat + rest, pat, repl) == repl + ReplaceAll(rest, pat, repl)
  {
    var s := pat + rest;
    assert StartsWith(s, pat) && s[|pat|..] == rest;
  }

  /** A character at which the pattern does not start is copied. */
  lemma ReplaceSkip(ch: char, s: string, pat: string, repl: string)
    requires |pat| > 0 && ch != pat[0]
    ensures ReplaceAll([ch] + s, pat, repl) == [ch] + ReplaceAll(s, pat, repl)
  {
    assert ([ch] + s)[1..] == s;
  }

  /** Splitting `a + c + b` at `c` splits `a` and `b` separately. */
  lemma {:induction false} SplitConcat(a: string, c: char, b: string)
    ensures Split(a + [c] + b, c) == Split(a, c) + Split(b, c)
    decreases |a|
  {
    var rb := Split(b, c);
    if a == "" {
      assert a + [c] + b == [c] + b;
      SplitAtSeparator(b, c);
    } else {
      var x, a' := a[0], a[1..];
      var t := a' + [c] + b;
      assert a + [c] + b == [x] + t;
      assert a == [x] + a';
      SplitConcat(a', c, b);
      var ra := Split(a', c);
      if x == c {
        SplitAtSeparator(t, c);
        SplitAtSeparator(a', c);
        assert [""] + (ra + rb) == ([""] + ra) + rb;
      } else {
        var rt := Split(t, c);
        assert rt == ra + rb;
        SplitOther(x, t, c);
        SplitOther(x, a', c);
        ConcatHeadTail(ra, rb, [x] + ra[0]);
      }
    }
  }

  /** Replacing the first element of `ra` commutes with appending `rb`. */
  lemma ConcatHeadTail(ra: seq<string>, rb: seq<string>, head: string)
    requires |ra| >= 1
    ensures (ra + rb)[0] == ra[0]
    ensures [head] + (ra + rb)[1..] == ([head] + ra[1..]) + rb
  {
    assert (ra + rb)[1..] == ra[1..] + rb;
  }

  /** A leading separator starts an empty first piece. */
  lemma SplitAtSeparator(s: string, c: char)
    ensures Split([c] + s, c) == [""] + Split(s, c)
  {
    assert ([c] + s)[0] == c && ([c] + s)[1..] == s;
  }

  /** Any other leading character joins the first piece of the rest. */
  lemma SplitOther(x: char, s: string, c: char)
    requires x != c
    ensures Split([x] + s, c) == [[x] + Split(s, c)[0]] + Split(s, c)[1..]
  {
    assert ([x] + s)[0] == x && ([x] + s)[1..] == s;
  }

  /** The first piece of `s` is `a` when `sep` first occurs at `|a|`. */
  lemma FirstPieceAt(a: string, sep: string, b: string)
    requires |sep| > 0
    requires forall j :: 0 <= j < |a| ==> !StartsWith((a + sep + b)[j..], sep)
    ensures FirstPiece(a + sep + b, sep) == a
  {
    var s := a + sep + b;
    var r := FirstPiece(s, sep);
    assert s[|a|..] == sep + b;
    assert StartsWith(s[|a|..], sep);
    assert |r| == |a|;
    assert s[..|a|] == a;
  }
}
