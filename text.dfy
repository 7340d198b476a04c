/**
 * The handful of Python `str` operations the scrapers use, on `string`
 * (that is, `seq<char>`): `replace` with a one-character pattern, `strip`,
 * `split` on one character, `startswith`, `endswith`, the substring test
 * `sub in s`, the slice `s[:n]` and `str(n)` for a natural number.
 */
module Text {

  /** The characters for which Python's `str.isspace()` holds, the ones `strip()` removes. */
  predicate IsSpace(c: char) {
    || c == ' ' || c == '\t' || c == '\n' || c == '\r' || c == '\U{B}' || c == '\U{C}'
    || ('\U{1C}' <= c <= '\U{1F}') || c == '\U{85}' || c == '\U{A0}' || c == '\U{1680}'
    || ('\U{2000}' <= c <= '\U{200A}') || c == '\U{2028}' || c == '\U{2029}'
    || c == '\U{202F}' || c == '\U{205F}' || c == '\U{3000}'
  }

  /**
   * `s.replace(c, t)`: every occurrence of the character `c` becomes `t`.
   * No character other than those of `s` and `t` appears in the result, and
   * `c` itself survives only if `t` brings it back.
   */
  function Replace(s: string, c: char, t: string): (r: string)
    ensures forall d :: d in r ==> (d in s && d != c) || d in t
    ensures c !in s ==> r == s
    ensures |t| == 1 ==> |r| == |s|
    ensures |t| == 0 ==> |r| <= |s|
  {
    if s == [] then []
    else (if s[0] == c then t else [s[0]]) + Replace(s[1..], c, t)
  }

  /** Replacing distributes over concatenation. */
  lemma {:induction false} ReplaceAppend(a: string, b: string, c: char, t: string)
    ensures Replace(a + b, c, t) == Replace(a, c, t) + Replace(b, c, t)
    decreases |a|
  {
    if a != [] {
      assert (a + b)[1..] == a[1..] + b;
      ReplaceAppend(a[1..], b, c, t);
    } else {
      assert a + b == b;
    }
  }

  /** On a single character, replacing gives `t` for `c` and keeps any other character. */
  lemma ReplaceChar(x: char, c: char, t: string)
    ensures Replace([x], c, t) == if x == c then t else [x]
  {
    assert [x][1..] == [];
  }

  /** The number of whitespace characters `s` starts with. */
  function Indent(s: string): (n: nat)
    ensures n <= |s|
    ensures forall k {:trigger IsSpace(s[k])} :: 0 <= k < n ==> IsSpace(s[k])
    ensures n < |s| ==> !IsSpace(s[n])
  {
    if s != [] && IsSpace(s[0]) then
      var m := Indent(s[1..]);
      assert forall k :: 1 <= k < m + 1 ==> s[k] == s[1..][k - 1];
      m + 1
    else 0
  }

  /** Leading whitespace removed (`lstrip()`): what follows the indentation. */
  function TrimLeft(s: string): (r: string)
    ensures |r| <= |s| && r == s[Indent(s)..]
    ensures r == [] || !IsSpace(r[0])
    ensures forall i :: 0 <= i < |s| - |r| ==> IsSpace(s[i])
  {
    if s != [] && IsSpace(s[0]) then TrimLeft(s[1..]) else s
  }

  /** Trailing whitespace removed (`rstrip()`). */
  function TrimRight(s: string): (r: string)
    ensures |r| <= |s| && r == s[..|r|]
    ensures r == [] || !IsSpace(r[|r| - 1])
    ensures forall i :: |r| <= i < |s| ==> IsSpace(s[i])
  {
    if s != [] && IsSpace(s[|s| - 1]) then TrimRight(s[..|s| - 1]) else s
  }

  /**
   * `s.strip()`: the text after the indentation of `s` up to where only
   * whitespace follows; it neither starts nor ends with whitespace.
   */
  function Strip(s: string): (r: string)
    ensures |r| <= |s|
    ensures r == [] || (!IsSpace(r[0]) && !IsSpace(r[|r| - 1]))
    ensures Indent(s) + |r| <= |s| && r == s[Indent(s)..Indent(s) + |r|]
    ensures forall k {:trigger IsSpace(s[k])} :: Indent(s) + |r| <= k < |s| ==> IsSpace(s[k])
  {
    var t := TrimLeft(s);
    var r := TrimRight(t);
    SliceAfter(s, Indent(s), t, r);
    r
  }

  lemma SliceAfter(s: string, i: int, t: string, r: string)
    requires 0 <= i <= |s| && t == s[i..] && |r| <= |t| && r == t[..|r|]
    requires forall k :: |r| <= k < |t| ==> IsSpace(t[k])
    ensures i + |r| <= |s| && r == s[i..i + |r|]
    ensures forall k {:trigger IsSpace(s[k])} :: i + |r| <= k < |s| ==> IsSpace(s[k])
  {
    forall k | i + |r| <= k < |s| ensures IsSpace(s[k]) {
      assert s[k] == t[k - i];
    }
  }

  /** Leading whitespace before a part that does not start with whitespace is all `lstrip()` removes. */
  lemma {:induction false} TrimLeftBefore(lead: string, rest: string)
    requires forall k :: 0 <= k < |lead| ==> IsSpace(lead[k])
    requires rest == [] || !IsSpace(rest[0])
    ensures TrimLeft(lead + rest) == rest
    decreases |lead|
  {
    if lead == [] {
      assert lead + rest == rest;
    } else {
      assert (lead + rest)[0] == lead[0];
      assert (lead + rest)[1..] == lead[1..] + rest;
      TrimLeftBefore(lead[1..], rest);
    }
  }

  /** Trailing whitespace after a part that does not end in whitespace is all `rstrip()` removes. */
  lemma {:induction false} TrimRightAfterCore(core: string, trail: string)
    requires forall k :: 0 <= k < |trail| ==> IsSpace(trail[k])
    requires core == [] || !IsSpace(core[|core| - 1])
    ensures TrimRight(core + trail) == core
    decreases |trail|
  {
    if trail == [] {
      assert core + trail == core;
    } else {
      var s := core + trail;
      assert s[|s| - 1] == trail[|trail| - 1];
      assert s[..|s| - 1] == core + trail[..|trail| - 1];
      TrimRightAfterCore(core, trail[..|trail| - 1]);
    }
  }

  /**
   * `strip()` removes exactly the whitespace around the text: a core that
   * neither starts nor ends with whitespace, surrounded by whitespace only,
   * is what remains.
   */
  lemma StripSurrounded(lead: string, core: string, trail: string)
    requires forall k :: 0 <= k < |lead| ==> IsSpace(lead[k])
    requires forall k :: 0 <= k < |trail| ==> IsSpace(trail[k])
    requires core == [] || (!IsSpace(core[0]) && !IsSpace(core[|core| - 1]))
    ensures Strip(lead + core + trail) == core
  {
    if core == [] {
      assert lead + core + trail == (lead + trail) + [];
      assert forall k :: 0 <= k < |lead + trail| ==> IsSpace((lead + trail)[k]) by {
        forall k | 0 <= k < |lead + trail| ensures IsSpace((lead + trail)[k]) {
          if k < |lead| { assert (lead + trail)[k] == lead[k]; } else { assert (lead + trail)[k] == trail[k - |lead|]; }
        }
      }
      TrimLeftBefore(lead + trail, []);
    } else {
      assert lead + core + trail == lead + (core + trail);
      assert (core + trail)[0] == core[0];
      TrimLeftBefore(lead, core + trail);
      TrimRightAfterCore(core, trail);
    }
  }

  /** A string with no whitespace at either end is left alone by `strip()`; in particular `strip()` is idempotent. */
  lemma StripFixed(s: string)
    requires s == [] || (!IsSpace(s[0]) && !IsSpace(s[|s| - 1]))
    ensures Strip(s) == s
  {
  }

  /** Trailing whitespace after a part that ends in a non-space character is removed from what follows it only. */
  lemma {:induction false} TrimRightAfter(a: string, b: string)
    requires a != [] && !IsSpace(a[|a| - 1])
    ensures TrimRight(a + b) == a + TrimRight(b)
    decreases |b|
  {
    if b == [] {
      assert a + b == a;
    } else if IsSpace(b[|b| - 1]) {
      assert (a + b)[..|a + b| - 1] == a + b[..|b| - 1];
      TrimRightAfter(a, b[..|b| - 1]);
    }
  }

  /** The number of occurrences of `c` in `s`. */
  function Count(s: string, c: char): nat {
    if s == [] then 0 else (if s[0] == c then 1 else 0) + Count(s[1..], c)
  }

  /** Counting distributes over concatenation. */
  lemma {:induction false} CountAppend(a: string, b: string, c: char)
    ensures Count(a + b, c) == Count(a, c) + Count(b, c)
    decreases |a|
  {
    if a == [] {
      assert a + b == b;
    } else {
      assert (a + b)[1..] == a[1..] + b;
      CountAppend(a[1..], b, c);
    }
  }

  /** `c` occurs nowhere exactly when it is counted zero times. */
  lemma {:induction false} CountZero(s: string, c: char)
    ensures Count(s, c) == 0 <==> c !in s
    decreases |s|
  {
    if s != [] {
      CountZero(s[1..], c);
      assert s == [s[0]] + s[1..];
    }
  }

  /** Turning every `c` into `d` adds the occurrences of `c` to those of `d`. */
  lemma {:induction false} ReplaceCount(s: string, c: char, d: char)
    requires c != d
    ensures Count(Replace(s, c, [d]), d) == Count(s, c) + Count(s, d)
    decreases |s|
  {
    if s != [] {
      ReplaceCount(s[1..], c, d);
      CountAppend(if s[0] == c then [d] else [s[0]], Replace(s[1..], c, [d]), d);
    }
  }

  /** `c.join(ps)`: the pieces with one `c` between neighbours. */
  function Join(ps: seq<string>, c: char): string {
    if ps == [] then []
    else if |ps| == 1 then ps[0]
    else ps[0] + [c] + Join(ps[1..], c)
  }

  /**
   * `s.split(c)`: the pieces between the occurrences of `c`, in order. There is
   * one piece more than there are occurrences and no piece contains `c`;
   * joining the pieces with `c` gives back `s` (`SplitJoinBack`).
   */
  function Split(s: string, c: char): (r: seq<string>)
    ensures |r| == Count(s, c) + 1
    ensures forall i :: 0 <= i < |r| ==> c !in r[i]
  {
    if s == [] then [[]]
    else
      var rest := Split(s[1..], c);
      if s[0] == c then
        [[]] + rest
      else
        var r := [[s[0]] + rest[0]] + rest[1..];
        assert r[1..] == rest[1..];
        r
  }

  /** Joining the pieces with `c` gives back the split string. */
  lemma {:induction false} SplitJoinBack(s: string, c: char)
    ensures Join(Split(s, c), c) == s
    decreases |s|
  {
    if s != [] {
      SplitJoinBack(s[1..], c);
      var rest := Split(s[1..], c);
      if s[0] == c {
        assert s == [c] + s[1..];
      } else {
        var r := Split(s, c);
        assert r[1..] == rest[1..];
        assert |rest| > 1 ==> rest[1..] != [] && Join(rest, c) == rest[0] + [c] + Join(rest[1..], c);
        assert s == [s[0]] + s[1..];
      }
    }
  }

  /** Every character of a piece occurs in the split string. */
  lemma {:induction false} SplitPiecesIn(s: string, c: char)
    ensures forall i, ch :: 0 <= i < |Split(s, c)| && ch in Split(s, c)[i] ==> ch in s
    decreases |s|
  {
    if s != [] {
      SplitPiecesIn(s[1..], c);
      var rest := Split(s[1..], c);
      var r := Split(s, c);
      forall i, ch | 0 <= i < |r| && ch in r[i]
        ensures ch in s
      {
        if s[0] == c {
          if i > 0 {
            assert r[i] == rest[i - 1];
            assert ch in s[1..];
          }
        } else if i == 0 {
          assert r[0] == [s[0]] + rest[0];
          assert ch == s[0] || ch in rest[0];
          assert ch in rest[0] ==> ch in s[1..];
        } else {
          assert r[i] == rest[i];
          assert ch in s[1..];
        }
      }
    }
  }

  /** A string without `c` is a single piece. */
  lemma {:induction false} SplitNone(a: string, c: char)
    requires c !in a
    ensures Split(a, c) == [a]
    decreases |a|
  {
    if a != [] {
      SplitNone(a[1..], c);
      assert a == [a[0]] + a[1..];
    }
  }

  /** Splitting at an occurrence of `c`: the pieces of what precedes it, then the pieces of what follows. */
  lemma {:induction false} SplitAppend(a: string, b: string, c: char)
    ensures Split(a + [c] + b, c) == Split(a, c) + Split(b, c)
    decreases |a|
  {
    var s := a + [c] + b;
    if a == [] {
      assert s == [c] + b;
      assert s[1..] == b;
    } else {
      assert s[1..] == a[1..] + [c] + b;
      SplitAppend(a[1..], b, c);
    }
  }

  /** Splitting at the first occurrence of `c`: what precedes it is the first piece. */
  lemma SplitAtFirst(a: string, b: string, c: char)
    requires c !in a
    ensures Split(a + [c] + b, c) == [a] + Split(b, c)
  {
    SplitAppend(a, b, c);
    SplitNone(a, c);
  }

  /** Splitting undoes joining pieces that do not contain the separator. */
  lemma {:induction false} SplitJoin(ps: seq<string>, c: char)
    requires |ps| > 0
    requires forall i :: 0 <= i < |ps| ==> c !in ps[i]
    ensures Split(Join(ps, c), c) == ps
    decreases |ps|
  {
    if |ps| == 1 {
      SplitNone(ps[0], c);
    } else {
      SplitJoin(ps[1..], c);
      SplitAtFirst(ps[0], Join(ps[1..], c), c);
      assert [ps[0]] + ps[1..] == ps;
    }
  }

  /** Two separators between three pieces that do not contain it give those three pieces. */
  lemma SplitThree(a: string, b: string, d: string, c: char)
    requires c !in a && c !in b && c !in d
    ensures Split(a + [c] + b + [c] + d, c) == [a, b, d]
  {
    assert a + [c] + b + [c] + d == a + [c] + (b + [c] + d);
    SplitAtFirst(a, b + [c] + d, c);
    SplitAtFirst(b, d, c);
    SplitNone(d, c);
  }

  /** Four pieces that do not contain `c`, each followed by `c`: the four pieces and an empty last one. */
  lemma SplitFour(a: string, b: string, d: string, e: string, c: char)
    requires c !in a && c !in b && c !in d && c !in e
    ensures Split(a + [c] + b + [c] + d + [c] + e + [c], c) == [a, b, d, e, []]
  {
    var x := a + [c] + b + [c] + d;
    assert a + [c] + b + [c] + d + [c] + e + [c] == x + [c] + e + [c] + [];
    SplitAppend(x + [c] + e, [], c);
    SplitAppend(x, e, c);
    SplitThree(a, b, d, c);
    SplitNone(e, c);
  }

  /** `s.startswith(p)`. */
  predicate StartsWith(s: string, p: string) {
    |p| <= |s| && s[..|p|] == p
  }

  /** `s.endswith(p)`. */
  predicate EndsWith(s: string, p: string) {
    |p| <= |s| && s[|s| - |p|..] == p
  }

  /** `sub in s`: `sub` occurs in `s` as a contiguous substring. */
  predicate Contains(s: string, sub: string)
    decreases |s|
  {
    StartsWith(s, sub) || (s != [] && Contains(s[1..], sub))
  }

  /** `sub` occurs in `s` starting at position `i`. */
  predicate OccursAt(s: string, sub: string, i: int) {
    0 <= i <= |s| - |sub| && s[i..i + |sub|] == sub
  }

  /** The recursive substring test agrees with "there is a position where `sub` occurs". */
  lemma {:induction false} ContainsAt(s: string, sub: string)
    ensures Contains(s, sub) <==> exists i :: OccursAt(s, sub, i)
    decreases |s|
  {
    if StartsWith(s, sub) {
      assert OccursAt(s, sub, 0);
    } else if s != [] {
      ContainsAt(s[1..], sub);
      if Contains(s[1..], sub) {
        var i :| OccursAt(s[1..], sub, i);
        assert OccursAt(s, sub, i + 1);
      }
      if exists i :: OccursAt(s, sub, i) {
        var i :| OccursAt(s, sub, i);
        assert i != 0;
        assert OccursAt(s[1..], sub, i - 1);
      }
    }
  }

  /** The slice `s[:n]`: the first `n` characters, or all of `s` when it is shorter. */
  function Take(s: string, n: nat): (r: string)
    ensures |r| == if |s| < n then |s| else n
    ensures StartsWith(s, r)
  {
    if |s| <= n then s else s[..n]
  }

  /** The decimal digit for `d`. */
  function DigitChar(d: nat): (ch: char)
    requires d < 10
    ensures '0' <= ch <= '9'
  {
    ('0' as int + d) as char
  }

  predicate IsDigit(ch: char) {
    '0' <= ch <= '9'
  }

  /** `str(n)` for a natural number: at least one digit, and at least two from 10 on. */
  function NatToString(n: nat): (r: string)
    ensures |r| >= 1
    ensures n >= 10 ==> |r| >= 2
    ensures forall i :: 0 <= i < |r| ==> IsDigit(r[i])
  {
    if n < 10 then [DigitChar(n)] else NatToString(n / 10) + [DigitChar(n % 10)]
  }

  /** Different numbers print differently. */
  lemma {:induction false} NatToStringInjective(a: nat, b: nat)
    requires NatToString(a) == NatToString(b)
    ensures a == b
    decreases a
  {
    var sa, sb := NatToString(a), NatToString(b);
    if a >= 10 && b >= 10 {
      assert sa[..|sa| - 1] == NatToString(a / 10);
      assert sb[..|sb| - 1] == NatToString(b / 10);
      NatToStringInjective(a / 10, b / 10);
      assert sa[|sa| - 1] == DigitChar(a % 10);
      assert sb[|sb| - 1] == DigitChar(b % 10);
    } else if a < 10 && b < 10 {
      assert sa[0] == DigitChar(a) && sb[0] == DigitChar(b);
    }
  }

  /** A non-empty run of digits. */
  predicate Digits(s: string) {
    s != [] && forall i :: 0 <= i < |s| ==> IsDigit(s[i])
  }

  /** A run of digits holds no separator and has no whitespace at its ends. */
  lemma DigitsPlain(s: string)
    requires Digits(s)
    ensures '/' !in s && '-' !in s && ';' !in s
    ensures !IsSpace(s[0]) && !IsSpace(s[|s| - 1])
  {
    assert IsDigit(s[0]) && IsDigit(s[|s| - 1]);
  }

  /** In a slashed date whose parts hold no `/`, exactly the two separators become dashes. */
  lemma SlashesToDashes(day: string, month: string, year: string)
    requires '/' !in day && '/' !in month && '/' !in year
    ensures Replace(day + "/" + month + "/" + year, '/', "-") == day + "-" + month + "-" + year
  {
    ReplaceAppend(day + "/" + month + "/", year, '/', "-");
    ReplaceAppend(day + "/" + month, "/", '/', "-");
    ReplaceAppend(day + "/", month, '/', "-");
    ReplaceAppend(day, "/", '/', "-");
    assert Replace("/", '/', "-") == "-";
  }
}
