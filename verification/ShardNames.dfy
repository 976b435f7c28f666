/** File names of shards: the tag, a dash, the shard's number with at least five digits, and the suffix. */
module ShardNames {

  function Digit(d: nat): char
    requires d < 10
  {
    "0123456789"[d]
  }

  function DigitValue(c: char): nat {
    if '0' <= c <= '9' then c as nat - '0' as nat else 0
  }

  predicate IsDigit(c: char) { '0' <= c <= '9' }

  /** At least "width" digits, zeros in front. */
  function Padded(n: nat, width: nat): (s: string)
    ensures |s| >= width && forall i :: 0 <= i < |s| ==> IsDigit(s[i])
    decreases n, width
  {
    if n == 0 && width == 0 then ""
    else Padded(n / 10, if width == 0 then 0 else width - 1) + [Digit(n % 10)]
  }

  function Number(s: string): nat {
    if s == "" then 0 else Number(s[..|s| - 1]) * 10 + DigitValue(s[|s| - 1])
  }

  lemma {:induction false} NumberOfPadded(n: nat, width: nat)
    ensures Number(Padded(n, width)) == n
    decreases n, width
  {
    if n != 0 || width != 0 {
      var w := if width == 0 then 0 else width - 1;
      var s := Padded(n, width);
      assert s[..|s| - 1] == Padded(n / 10, w);
      NumberOfPadded(n / 10, w);
    }
  }

  function Suffix(): string { ".safetensors" }

  function ShardName(tag: string, k: nat): string {
    tag + "-" + Padded(k, 5) + Suffix()
  }

  lemma NoDashAfter(a: string, u: string)
    requires '-' !in u
    ensures var s := a + "-" + u; s[|a|] == '-' && forall j :: |a| < j < |s| ==> s[j] != '-'
  {
    var s := a + "-" + u;
    forall j | |a| < j < |s|
      ensures s[j] != '-'
    {
      assert s[j] == u[j - |a| - 1];
    }
  }

  /** Text before the last dash, when what follows it has none, determines the cut. */
  lemma LastDash(a: string, u: string, b: string, v: string)
    requires a + "-" + u == b + "-" + v
    requires '-' !in u && '-' !in v
    ensures a == b && u == v
  {
    var s := a + "-" + u;
    NoDashAfter(a, u);
    NoDashAfter(b, v);
    assert |a| == |b|;
    assert a == s[..|a|] && b == s[..|b|];
    assert u == s[|a| + 1..] && v == s[|b| + 1..];
  }

  /** No two shards share a name, not even those of models whose tags hold dashes. */
  lemma ShardNameInjective(t: string, k: nat, u: string, l: nat)
    requires ShardName(t, k) == ShardName(u, l)
    ensures t == u && k == l
  {
    var x, y := t + "-" + Padded(k, 5), u + "-" + Padded(l, 5);
    assert x == ShardName(t, k)[..|ShardName(t, k)| - |Suffix()|];
    assert y == ShardName(u, l)[..|ShardName(u, l)| - |Suffix()|];
    LastDash(t, Padded(k, 5), u, Padded(l, 5));
    NumberOfPadded(k, 5);
    NumberOfPadded(l, 5);
  }

  function Names(tag: string, n: nat): seq<string> {
    seq(n, k requires 0 <= k < n => ShardName(tag, k))
  }
}
