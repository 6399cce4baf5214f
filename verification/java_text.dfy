/** The java.lang.String and java.lang.Long behaviour the plugin relies on:
    trim, split with a one-character pattern, case-insensitive region
    matching and Long.parseLong. */
module JavaText {
  import opened Wrappers

  const MinLong: int := -0x8000_0000_0000_0000
  const MaxLong: int := 0x7FFF_FFFF_FFFF_FFFF

  // ---------------------------------------------------------------- length

  /** A character Java stores as a surrogate pair: one outside the Basic
      Multilingual Plane. */
  predicate IsSupplementary(c: char) { c as int >= 0x1_0000 }

  /** String.length(): the number of UTF-16 code units, two for each
      supplementary character and one for every other. */
  function Utf16Length(s: string): (n: nat)
    ensures |s| <= n <= 2 * |s|
    ensures n == 0 <==> |s| == 0
  {
    if |s| == 0 then 0
    else Utf16Length(s[..|s| - 1]) + (if IsSupplementary(s[|s| - 1]) then 2 else 1)
  }

  /** Without supplementary characters Java's length is the character count. */
  lemma {:induction false} Utf16LengthOfBmp(s: string)
    requires forall i :: 0 <= i < |s| ==> !IsSupplementary(s[i])
    ensures Utf16Length(s) == |s|
  {
    if |s| > 0 {
      var init := s[..|s| - 1];
      assert forall i :: 0 <= i < |init| ==> init[i] == s[i];
      Utf16LengthOfBmp(init);
    }
  }

  /** Each supplementary character adds one code unit more than it adds
      characters. */
  lemma {:induction false} Utf16LengthAppend(a: string, b: string)
    ensures Utf16Length(a + b) == Utf16Length(a) + Utf16Length(b)
    decreases |b|
  {
    if |b| == 0 {
      assert a + b == a;
    } else {
      var b' := b[..|b| - 1];
      assert (a + b)[..|a + b| - 1] == a + b';
      assert (a + b)[|a + b| - 1] == b[|b| - 1];
      Utf16LengthAppend(a, b');
    }
  }

  // ---------------------------------------------------------------- trim

  /** A character String.trim removes: any code point up to U+0020. */
  predicate IsBlankChar(c: char) { c <= ' ' }

  predicate IsBlank(s: string) { forall i :: 0 <= i < |s| ==> IsBlankChar(s[i]) }

  function TrimStart(s: string): (r: string)
    ensures |r| <= |s| && r == s[|s| - |r|..]
    ensures forall i :: 0 <= i < |s| - |r| ==> IsBlankChar(s[i])
    ensures |r| > 0 ==> !IsBlankChar(r[0])
    decreases |s|
  {
    if |s| > 0 && IsBlankChar(s[0]) then TrimStart(s[1..]) else s
  }

  function TrimEnd(s: string): (r: string)
    ensures |r| <= |s| && r == s[..|r|]
    ensures forall i :: |r| <= i < |s| ==> IsBlankChar(s[i])
    ensures |r| > 0 ==> !IsBlankChar(r[|r| - 1])
    decreases |s|
  {
    if |s| > 0 && IsBlankChar(s[|s| - 1]) then TrimEnd(s[..|s| - 1]) else s
  }

  /** String.trim. */
  function Trim(s: string): string
  {
    TrimEnd(TrimStart(s))
  }

  lemma {:induction false} TrimStartPadded(pre: string, rest: string)
    requires IsBlank(pre)
    requires |rest| == 0 || !IsBlankChar(rest[0])
    ensures TrimStart(pre + rest) == rest
    decreases |pre|
  {
    if |pre| == 0 {
      assert pre + rest == rest;
    } else {
      assert (pre + rest)[0] == pre[0];
      assert (pre + rest)[1..] == pre[1..] + rest;
      TrimStartPadded(pre[1..], rest);
    }
  }

  lemma {:induction false} TrimEndPadded(core: string, post: string)
    requires IsBlank(post)
    requires |core| == 0 || !IsBlankChar(core[|core| - 1])
    ensures TrimEnd(core + post) == core
    decreases |post|
  {
    if |post| == 0 {
      assert core + post == core;
    } else {
      var s := core + post;
      assert s[|s| - 1] == post[|post| - 1];
      assert s[..|s| - 1] == core + post[..|post| - 1];
      TrimEndPadded(core, post[..|post| - 1]);
    }
  }

  /** Surrounding blanks never reach the trimmed text: trimming a text
      padded on both sides gives back the text itself. */
  lemma TrimPadded(pre: string, core: string, post: string)
    requires IsBlank(pre) && IsBlank(post)
    requires |core| == 0 || (!IsBlankChar(core[0]) && !IsBlankChar(core[|core| - 1]))
    ensures Trim(pre + core + post) == core
  {
    if |core| == 0 {
      var s := pre + core + post;
      assert IsBlank(s) by {
        forall i | 0 <= i < |s| ensures IsBlankChar(s[i]) {
          if i < |pre| { assert s[i] == pre[i]; } else { assert s[i] == post[i - |pre|]; }
        }
      }
      var t := TrimStart(s);
      assert |t| == 0;
    } else {
      assert pre + core + post == pre + (core + post);
      TrimStartPadded(pre, core + post);
      TrimEndPadded(core, post);
    }
  }

  /** Trimming twice is trimming once. */
  lemma TrimIdempotent(s: string)
    ensures Trim(Trim(s)) == Trim(s)
  {
    var t := Trim(s);
    var u := TrimStart(s);
    assert t == TrimEnd(u);
    assert |t| == 0 || (!IsBlankChar(t[0]) && !IsBlankChar(t[|t| - 1])) by {
      if |t| > 0 { assert t[0] == u[0]; }
    }
    assert t == "" + t + "";
    TrimPadded("", t, "");
  }

  // ---------------------------------------------------------------- split

  /** String.indexOf(c), with "not found" reported as |s| instead of -1. */
  function IndexOf(s: string, c: char): (i: nat)
    ensures i <= |s|
    ensures i < |s| ==> s[i] == c
    ensures forall j :: 0 <= j < i ==> s[j] != c
    ensures i == |s| <==> c !in s
  {
    if |s| == 0 then 0 else if s[0] == c then 0 else 1 + IndexOf(s[1..], c)
  }

  /** Joins pieces with the delimiter between consecutive pieces. */
  function Join(ps: seq<string>, c: char): string
  {
    if |ps| == 0 then "" else if |ps| == 1 then ps[0] else ps[0] + [c] + Join(ps[1..], c)
  }

  /** Every piece of `s` between two occurrences of `c`, empty pieces included. */
  function Pieces(s: string, c: char): (ps: seq<string>)
    ensures |ps| >= 1
    ensures forall k :: 0 <= k < |ps| ==> c !in ps[k]
    ensures Join(ps, c) == s
    decreases |s|
  {
    var i := IndexOf(s, c);
    if i == |s| then [s]
    else
      var rest := Pieces(s[i + 1..], c);
      assert s == s[..i] + [c] + s[i + 1..];
      assert ([s[..i]] + rest)[1..] == rest;
      [s[..i]] + rest
  }

  function DropTrailingEmpty(ps: seq<string>): (r: seq<string>)
    ensures |r| <= |ps| && r == ps[..|r|]
    ensures forall k :: |r| <= k < |ps| ==> ps[k] == ""
    ensures |r| > 0 ==> r[|r| - 1] != ""
  {
    if |ps| > 0 && ps[|ps| - 1] == "" then DropTrailingEmpty(ps[..|ps| - 1]) else ps
  }

  /** String.split(c) for a one-character literal pattern: with no match the
      whole string (even "") is the only token; otherwise the pieces with
      the trailing empty ones dropped. */
  function Split(s: string, c: char): (r: seq<string>)
    ensures forall k :: 0 <= k < |r| ==> c !in r[k]
  {
    if c !in s then [s] else DropTrailingEmpty(Pieces(s, c))
  }

  /** The text before the first `c` (all of `e` when there is none). */
  function Before(e: string, c: char): string
  {
    e[..IndexOf(e, c)]
  }

  /** The text between the first and the second `c` (or the end). */
  function Between(e: string, c: char): string
    requires c in e
  {
    var rest := e[IndexOf(e, c) + 1..];
    rest[..IndexOf(rest, c)]
  }

  /** Some character after the first `c` differs from `c`. */
  predicate HasSecondToken(e: string, c: char)
  {
    exists j :: IndexOf(e, c) < j < |e| && e[j] != c
  }

  lemma FirstPiece(s: string, c: char)
    ensures Pieces(s, c)[0] == s[..IndexOf(s, c)]
  {
  }

  predicate OnlyChar(s: string, c: char) { forall j :: 0 <= j < |s| ==> s[j] == c }

  predicate AllEmpty(ps: seq<string>) { forall k :: 0 <= k < |ps| ==> ps[k] == "" }

  lemma {:induction false} AllPiecesEmpty(s: string, c: char)
    ensures AllEmpty(Pieces(s, c)) <==> OnlyChar(s, c)
    decreases |s|
  {
    var i := IndexOf(s, c);
    if i == |s| {
      if |s| > 0 {
        assert s[0] != c;
        assert Pieces(s, c)[0] == s;
      }
    } else {
      var rest := s[i + 1..];
      var p := Pieces(rest, c);
      AllPiecesEmpty(rest, c);
      var ps := Pieces(s, c);
      assert ps == [s[..i]] + p;
      if OnlyChar(s, c) {
        assert s[0] == c;
        assert i == 0;
        assert OnlyChar(rest, c) by {
          forall j | 0 <= j < |rest| ensures rest[j] == c { assert rest[j] == s[i + 1 + j]; }
        }
        assert AllEmpty(ps) by {
          forall k | 0 <= k < |ps| ensures ps[k] == "" {
            if k > 0 { assert ps[k] == p[k - 1]; }
          }
        }
      }
      if AllEmpty(ps) {
        assert ps[0] == s[..i];
        assert i == 0;
        assert AllEmpty(p) by {
          forall k | 0 <= k < |p| ensures p[k] == "" { assert ps[k + 1] == p[k]; }
        }
        assert OnlyChar(s, c) by {
          forall j | 0 <= j < |s| ensures s[j] == c {
            if j > 0 { assert s[j] == rest[j - 1]; }
          }
        }
      }
    }
  }

  lemma DropTrailingAfterHead(a: string, p: seq<string>)
    ensures |DropTrailingEmpty([a] + p)| >= 2 <==> !AllEmpty(p)
    ensures |DropTrailingEmpty([a] + p)| >= 2 ==> DropTrailingEmpty([a] + p)[0] == a && DropTrailingEmpty([a] + p)[1] == p[0]
  {
    var ps := [a] + p;
    var r := DropTrailingEmpty(ps);
    if !AllEmpty(p) {
      var k :| 0 <= k < |p| && p[k] != "";
      assert ps[k + 1] == p[k];
    }
    if |r| >= 2 {
      assert r[|r| - 1] == ps[|r| - 1] == p[|r| - 2];
      assert r[0] == ps[0] && r[1] == ps[1];
    }
  }

  lemma SecondTokenAfterFirst(e: string, c: char)
    requires c in e
    ensures HasSecondToken(e, c) <==> !OnlyChar(e[IndexOf(e, c) + 1..], c)
  {
    var i := IndexOf(e, c);
    var rest := e[i + 1..];
    if HasSecondToken(e, c) {
      var j :| i < j < |e| && e[j] != c;
      assert rest[j - i - 1] == e[j];
    }
    if !OnlyChar(rest, c) {
      var j :| 0 <= j < |rest| && rest[j] != c;
      assert e[i + 1 + j] == rest[j];
    }
  }

  /** `e.split(c)` has at least two tokens exactly when a character other
      than `c` follows the first `c`; the first two tokens are then the text
      before the first `c` and the text between the first and second `c`. */
  lemma SplitTokens(e: string, c: char)
    ensures |Split(e, c)| >= 2 <==> HasSecondToken(e, c)
    ensures HasSecondToken(e, c) ==> c in e && Split(e, c)[0] == Before(e, c) && Split(e, c)[1] == Between(e, c)
  {
    var i := IndexOf(e, c);
    if c !in e {
      assert Split(e, c) == [e];
      assert !HasSecondToken(e, c);
    } else {
      var rest := e[i + 1..];
      var p := Pieces(rest, c);
      assert Pieces(e, c) == [e[..i]] + p;
      AllPiecesEmpty(rest, c);
      SecondTokenAfterFirst(e, c);
      DropTrailingAfterHead(e[..i], p);
      FirstPiece(rest, c);
    }
  }

  /** Joining pieces that avoid a character other than the delimiter gives
      a text that avoids it too; the delimiter itself shows up as soon as
      there are two pieces. */
  lemma {:induction false} JoinAvoids(ps: seq<string>, c: char, x: char)
    requires x != c
    requires forall k :: 0 <= k < |ps| ==> x !in ps[k]
    ensures x !in Join(ps, c)
    ensures |ps| >= 2 ==> c in Join(ps, c)
    decreases |ps|
  {
    if |ps| >= 2 {
      var tail := ps[1..];
      assert forall k :: 0 <= k < |tail| ==> x !in tail[k] by {
        forall k | 0 <= k < |tail| ensures x !in tail[k] { assert tail[k] == ps[k + 1]; }
      }
      JoinAvoids(tail, c, x);
      assert Join(ps, c)[|ps[0]|] == c;
    }
  }

  /** The first `c` of `a + [c] + b` is the one after `a` when `a` has none. */
  lemma IndexOfSeparator(a: string, b: string, c: char)
    requires c !in a
    ensures IndexOf(a + [c] + b, c) == |a|
    ensures (a + [c] + b)[..|a|] == a && (a + [c] + b)[|a| + 1..] == b
  {
    var s := a + [c] + b;
    assert s[|a|] == c;
    assert forall j :: 0 <= j < |a| ==> s[j] == a[j];
  }

  /** Cutting a joined list at every delimiter gives the list back. */
  lemma {:induction false} PiecesJoin(ps: seq<string>, c: char)
    requires |ps| >= 1
    requires forall k :: 0 <= k < |ps| ==> c !in ps[k]
    ensures Pieces(Join(ps, c), c) == ps
    decreases |ps|
  {
    if |ps| > 1 {
      var tail := ps[1..];
      assert forall k :: 0 <= k < |tail| ==> c !in tail[k] by {
        forall k | 0 <= k < |tail| ensures c !in tail[k] { assert tail[k] == ps[k + 1]; }
      }
      PiecesJoin(tail, c);
      IndexOfSeparator(ps[0], Join(tail, c), c);
      assert [ps[0]] + tail == ps;
    }
  }

  /** split() is the inverse of joining pieces free of the delimiter, as
      long as the last piece is not empty. */
  lemma SplitJoin(ps: seq<string>, c: char)
    requires |ps| >= 1
    requires forall k :: 0 <= k < |ps| ==> c !in ps[k]
    requires ps[|ps| - 1] != ""
    ensures Split(Join(ps, c), c) == ps
  {
    PiecesJoin(ps, c);
    if |ps| > 1 {
      IndexOfSeparator(ps[0], Join(ps[1..], c), c);
      assert Join(ps, c)[|ps[0]|] == c;
    }
  }

  /** Delimiters at the end only add empty pieces, and split() drops them. */
  lemma SplitJoinTrailing(ps: seq<string>, c: char, n: nat)
    requires |ps| >= 1
    requires forall k :: 0 <= k < |ps| ==> c !in ps[k]
    requires ps[|ps| - 1] != ""
    ensures Split(Join(ps + seq(n, i => ""), c), c) == ps
  {
    var qs := ps + seq(n, i => "");
    if n == 0 {
      assert qs == ps;
      SplitJoin(ps, c);
    } else {
      assert forall k :: 0 <= k < |qs| ==> c !in qs[k] by {
        forall k | 0 <= k < |qs| ensures c !in qs[k] {
          if k < |ps| { assert qs[k] == ps[k]; } else { assert qs[k] == ""; }
        }
      }
      PiecesJoin(qs, c);
      IndexOfSeparator(qs[0], Join(qs[1..], c), c);
      assert Join(qs, c)[|qs[0]|] == c;
      var r := DropTrailingEmpty(qs);
      assert qs[|ps| - 1] == ps[|ps| - 1];
      assert forall k :: |ps| <= k < |qs| ==> qs[k] == "";
      assert |r| > 0 ==> r[|r| - 1] == qs[|r| - 1];
      assert |r| == |ps| by {
        if |r| < |ps| {
          assert false;
        } else if |r| > |ps| {
          assert false;
        }
      }
      assert r == qs[..|ps|] == ps;
    }
  }

  // ---------------------------------------------------------------- case-insensitive matching

  /** Case folding as String.regionMatches(true, ...) applies it when the
      other character is ASCII: ASCII letters, plus the four non-ASCII
      characters whose Java upper or lower case is an ASCII letter
      (long s, Kelvin sign, dotless i, dotted capital I). */
  function FoldCase(c: char): char
  {
    if 'A' <= c <= 'Z' then (c as int + 32) as char
    else if c == '\U{017F}' then 's'
    else if c == '\U{212A}' then 'k'
    else if c == '\U{0131}' || c == '\U{0130}' then 'i'
    else c
  }

  /** s.regionMatches(true, 0, lit, 0, |lit|) for an ASCII literal `lit`. */
  predicate StartsWithIgnoreCase(s: string, lit: string)
  {
    |s| >= |lit| && forall i :: 0 <= i < |lit| ==> FoldCase(s[i]) == FoldCase(lit[i])
  }

  function FoldAll(s: string): (r: string)
    ensures |r| == |s|
    ensures forall i :: 0 <= i < |s| ==> r[i] == FoldCase(s[i])
  {
    seq(|s|, i requires 0 <= i < |s| => FoldCase(s[i]))
  }

  /** Matching ignores case: folding the text first changes nothing. */
  lemma StartsWithIgnoreCaseFolded(s: string, lit: string)
    ensures StartsWithIgnoreCase(s, lit) <==> StartsWithIgnoreCase(FoldAll(s), lit)
  {
    var f := FoldAll(s);
    forall i | 0 <= i < |s| ensures FoldCase(f[i]) == FoldCase(s[i]) {
      assert f[i] == FoldCase(s[i]);
    }
  }

  /** String.startsWith (case-sensitive). */
  predicate StartsWith(s: string, prefix: string)
  {
    |prefix| <= |s| && s[..|prefix|] == prefix
  }

  // ---------------------------------------------------------------- Long.parseLong

  predicate IsDigit(c: char) { '0' <= c <= '9' }

  predicate AllDigits(s: string) { forall i :: 0 <= i < |s| ==> IsDigit(s[i]) }

  /** The value of a string of decimal digits. */
  function DigitsValue(s: string): nat
    requires AllDigits(s)
  {
    if |s| == 0 then 0 else DigitsValue(s[..|s| - 1]) * 10 + (s[|s| - 1] as int - '0' as int)
  }

  /** Long.parseLong: an optional sign, at least one digit, and a value
      within the 64-bit range; None where Java throws NumberFormatException. */
  function ParseLong(s: string): (r: Option<int>)
    ensures r.Some? ==> MinLong <= r.value <= MaxLong
    ensures r.Some? ==> |s| >= 1 && (IsDigit(s[0]) || s[0] == '-' || s[0] == '+')
  {
    if |s| == 0 then None
    else
      var signed := s[0] == '-' || s[0] == '+';
      var digits := if signed then s[1..] else s;
      if |digits| == 0 || !AllDigits(digits) then None
      else
        var v: int := if s[0] == '-' then 0 - DigitsValue(digits) as int else DigitsValue(digits);
        if MinLong <= v <= MaxLong then Some(v) else None
  }

  /** The decimal rendering of a natural number (Long.toString for n >= 0). */
  function ShowNat(n: nat): (s: string)
    ensures |s| >= 1 && AllDigits(s) && DigitsValue(s) == n
  {
    var d := ((n % 10) + '0' as int) as char;
    if n < 10 then
      assert [d][..0] == [];
      [d]
    else
      var prefix := ShowNat(n / 10);
      assert (prefix + [d])[..|prefix|] == prefix;
      prefix + [d]
  }

  /** Long.toString. */
  function ShowLong(n: int): string
  {
    if n < 0 then "-" + ShowNat(-n) else ShowNat(n)
  }

  /** Every long's decimal rendering parses back to it. */
  lemma ParseShowLong(n: int)
    requires MinLong <= n <= MaxLong
    ensures ParseLong(ShowLong(n)) == Some(n)
  {
    var s := ShowLong(n);
    if n < 0 {
      assert s[1..] == ShowNat(-n);
    } else {
      assert IsDigit(s[0]);
    }
  }
}
