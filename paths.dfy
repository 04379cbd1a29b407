/** Names of the staging files: `extracted_data/repo_<idx>.json`. */
module Paths {

  predicate IsDigit(c: char) {
    '0' <= c <= '9'
  }

  function DigitChar(d: nat): (c: char)
    requires d < 10
    ensures IsDigit(c) && c as int - '0' as int == d
  {
    ('0' as int + d) as char
  }

  /** Python's `str(n)` (and `f"{n}"`) for a non-negative integer: decimal, no leading zeros. */
  function NatToString(n: nat): (s: string)
    ensures |s| >= 1
    ensures forall k :: 0 <= k < |s| ==> IsDigit(s[k])
    ensures s[0] == '0' ==> s == "0"
  {
    if n < 10 then [DigitChar(n)] else NatToString(n / 10) + [DigitChar(n % 10)]
  }

  /** The value of a string of decimal digits. */
  function ParseNat(s: string): nat
    requires forall k :: 0 <= k < |s| ==> IsDigit(s[k])
  {
    if s == [] then 0
    else
      var last := s[|s| - 1];
      assert IsDigit(last);
      ParseNat(s[..|s| - 1]) * 10 + (last as int - '0' as int)
  }

  /** Reading back the decimal rendering of `n` gives `n`. */
  lemma {:induction false} ParseNatToString(n: nat)
    ensures ParseNat(NatToString(n)) == n
  {
    var s := NatToString(n);
    if n >= 10 {
      ParseNatToString(n / 10);
      assert s[..|s| - 1] == NatToString(n / 10);
    }
  }

  /** Distinct numbers have distinct decimal renderings. */
  lemma NatToStringInjective(m: nat, n: nat)
    requires NatToString(m) == NatToString(n)
    ensures m == n
  {
    ParseNatToString(m);
    ParseNatToString(n);
  }

  const StagingPrefix: string := "extracted_data/repo_"
  const StagingSuffix: string := ".json"

  /** The path `f"extracted_data/repo_{idx}.json"` that batch `idx` is written to. */
  function BatchPath(idx: nat): string {
    StagingPrefix + NatToString(idx) + StagingSuffix
  }

  /** Different batch indices are written to different paths. */
  lemma BatchPathInjective(i: nat, j: nat)
    requires BatchPath(i) == BatchPath(j)
    ensures i == j
  {
    var p, a, b := BatchPath(i), NatToString(i), NatToString(j);
    assert |a| == |b|;
    assert a == p[|StagingPrefix|..|StagingPrefix| + |a|];
    assert b == p[|StagingPrefix|..|StagingPrefix| + |b|];
    NatToStringInjective(i, j);
  }
}
