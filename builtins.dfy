/**
 * The few Python built-ins the survey code leans on: `str.strip()`, `str(n)` for a
 * non-negative int, slicing `s[:n]`, `sep.join(parts)`, `dict.get(k, default)` and a dict
 * built from key/value pairs (`{k: v for ...}`, where a later pair overwrites an earlier one).
 */
module Builtins {

  function Min(a: int, b: int): int { if a <= b then a else b }

  /**
   * `c.isspace()` in Python: the code points `str.strip()` removes (the ASCII and C0
   * separators, NEL, NO-BREAK SPACE and the Unicode space separators and line/paragraph
   * separators).
   */
  predicate IsSpace(c: char) {
    || c == ' '
    || ('\t' <= c <= '\r')
    || ('\U{1C}' <= c <= '\U{1F}')
    || c == '\U{85}' || c == '\U{A0}' || c == '\U{1680}'
    || ('\U{2000}' <= c <= '\U{200A}')
    || c == '\U{2028}' || c == '\U{2029}' || c == '\U{202F}' || c == '\U{205F}' || c == '\U{3000}'
  }

  predicate AllSpace(s: string) {
    forall i :: 0 <= i < |s| ==> IsSpace(s[i])
  }

  /** Drops leading whitespace: what is left is a suffix of `s` that does not start with a space. */
  function TrimLeft(s: string): (r: string)
    ensures |r| <= |s| && r == s[|s| - |r|..]
    ensures r == [] || !IsSpace(r[0])
    ensures AllSpace(s[..|s| - |r|])
  {
    if |s| > 0 && IsSpace(s[0]) then
      var t := s[1..];
      var r := TrimLeft(t);
      assert r == s[|s| - |r|..] by {
        assert t[|t| - |r|..] == s[|s| - |r|..];
      }
      assert AllSpace(s[..|s| - |r|]) by {
        var pre := s[..|s| - |r|];
        forall i | 0 <= i < |pre| ensures IsSpace(pre[i]) {
          if i > 0 {
            assert pre[i] == t[..|t| - |r|][i - 1];
          }
        }
      }
      r
    else
      s
  }

  /** Drops trailing whitespace: what is left is a prefix of `s` that does not end with a space. */
  function TrimRight(s: string): (r: string)
    ensures |r| <= |s| && r == s[..|r|]
    ensures r == [] || !IsSpace(r[|r| - 1])
    ensures AllSpace(s[|r|..])
  {
    if |s| > 0 && IsSpace(s[|s| - 1]) then
      var t := s[..|s| - 1];
      var r := TrimRight(t);
      assert r == s[..|r|] by {
        assert t[..|r|] == s[..|r|];
      }
      assert AllSpace(s[|r|..]) by {
        var post := s[|r|..];
        forall i | 0 <= i < |post| ensures IsSpace(post[i]) {
          if i < |post| - 1 {
            assert post[i] == t[|r|..][i];
          }
        }
      }
      r
    else
      s
  }

  /** `s.strip()`: a contiguous part of `s` with no whitespace at either end. */
  function Strip(s: string): (r: string)
    ensures |r| <= |s|
    ensures r == [] || (!IsSpace(r[0]) && !IsSpace(r[|r| - 1]))
  {
    TrimRight(TrimLeft(s))
  }

  /** A string with no whitespace at either end is its own strip. */
  lemma StripUntrimmed(s: string)
    requires s == [] || (!IsSpace(s[0]) && !IsSpace(s[|s| - 1]))
    ensures Strip(s) == s
  {
  }

  /** Stripping twice is stripping once. */
  lemma StripIdempotent(s: string)
    ensures Strip(Strip(s)) == Strip(s)
  {
    StripUntrimmed(Strip(s));
  }

  /** `s.strip()` is empty exactly when `s` is empty or all whitespace. */
  lemma {:induction false} StripEmptyIff(s: string)
    ensures Strip(s) == [] <==> AllSpace(s)
  {
    var l := TrimLeft(s);
    if l != [] {
      assert l[0] == s[|s| - |l|];
    }
    if Strip(s) == [] {
      assert l[0..] == l;
      assert l == [];
      assert s[..|s|] == s;
    }
  }

  function DigitChar(d: nat): (c: char)
    requires d < 10
    ensures '0' <= c <= '9'
  {
    (48 + d) as char
  }

  /** `str(n)` for `n >= 0`: decimal digits, no sign and no leading zero. */
  function NatToString(n: nat): (s: string)
    ensures 1 <= |s|
    ensures forall i :: 0 <= i < |s| ==> '0' <= s[i] <= '9'
    ensures (|s| == 1) == (n < 10)
    ensures |s| > 1 ==> s[0] != '0'
  {
    if n < 10 then [DigitChar(n)] else NatToString(n / 10) + [DigitChar(n % 10)]
  }

  /** Different numbers print differently. */
  lemma {:induction false} NatToStringInjective(a: nat, b: nat)
    requires NatToString(a) == NatToString(b)
    ensures a == b
  {
    var s := NatToString(a);
    if a >= 10 {
      assert b >= 10;
      var p := s[..|s| - 1];
      assert NatToString(a / 10) == p && NatToString(b / 10) == p;
      NatToStringInjective(a / 10, b / 10);
      assert DigitChar(a % 10) == s[|s| - 1] == DigitChar(b % 10);
    }
  }

  /** `s[:n]` for `n >= 0`. */
  function Take(s: string, n: nat): (r: string)
    ensures |r| == Min(|s|, n)
    ensures r == s[..|r|]
  {
    if n < |s| then s[..n] else s
  }

  /** `sep.join(parts)`. */
  function Join(parts: seq<string>, sep: string): (r: string)
    ensures |parts| > 0 ==> |parts[0]| <= |r| && r[..|parts[0]|] == parts[0]
  {
    if |parts| == 0 then ""
    else if |parts| == 1 then parts[0]
    else
      var front := Join(parts[..|parts| - 1], sep);
      assert parts[..|parts| - 1][0] == parts[0];
      var r := front + sep + parts[|parts| - 1];
      assert |parts[0]| <= |front|;
      assert r[..|parts[0]|] == front[..|parts[0]|];
      r
  }

  /** Appending a part appends the separator and that part. */
  lemma JoinSnoc(parts: seq<string>, sep: string, p: string)
    requires |parts| > 0
    ensures Join(parts + [p], sep) == Join(parts, sep) + sep + p
  {
    assert (parts + [p])[..|parts|] == parts;
  }

  /** `d.get(k, default)`. */
  function Get<K, V>(d: map<K, V>, k: K, default: V): V {
    if k in d then d[k] else default
  }

  /** `{k: v for (k, v) in pairs}`: a later pair for the same key overwrites an earlier one. */
  function DictOf<K, V>(pairs: seq<(K, V)>): (d: map<K, V>)
    ensures forall i :: 0 <= i < |pairs| ==> pairs[i].0 in d
    ensures forall k :: k in d ==> exists i :: 0 <= i < |pairs| && pairs[i] == (k, d[k])
  {
    if |pairs| == 0 then map[]
    else
      var front := pairs[..|pairs| - 1];
      var d := DictOf(front)[pairs[|pairs| - 1].0 := pairs[|pairs| - 1].1];
      assert forall i :: 0 <= i < |front| ==> front[i] == pairs[i];
      d
  }

  /** The value a key ends up with is that of the last pair carrying that key. */
  lemma {:induction false} DictOfLast<K, V>(pairs: seq<(K, V)>, i: nat)
    requires i < |pairs|
    requires forall j :: i < j < |pairs| ==> pairs[j].0 != pairs[i].0
    ensures DictOf(pairs)[pairs[i].0] == pairs[i].1
  {
    if i < |pairs| - 1 {
      var front := pairs[..|pairs| - 1];
      assert front[i] == pairs[i];
      forall j | i < j < |front| ensures front[j].0 != front[i].0 {
        assert front[j] == pairs[j];
      }
      DictOfLast(front, i);
    }
  }

  /** A key no pair carries is absent. */
  lemma DictOfAbsent<K, V>(pairs: seq<(K, V)>, k: K)
    requires forall i :: 0 <= i < |pairs| ==> pairs[i].0 != k
    ensures k !in DictOf(pairs)
  {
  }
}
