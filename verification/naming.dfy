/** Decimal counters and the collision-avoiding destination naming shared by
    file delivery (toss.go) and reassembly (nncp-reass): try `orig`, then
    `orig + "0"`, `orig + "1"`, ... and take the first name that does not
    exist. The temporary files both create are probed the same way, under
    the prefix followed by nine digits. */
module Naming {
  import opened Common

  predicate IsDigit(c: char) {
    '0' <= c <= '9'
  }

  predicate AllDigits(s: string) {
    forall i :: 0 <= i < |s| ==> IsDigit(s[i])
  }

  function DigitChar(d: nat): (c: char)
    requires d < 10
    ensures IsDigit(c)
  {
    (48 + d) as char
  }

  function DigitValue(c: char): (d: nat)
    requires IsDigit(c)
    ensures d < 10
  {
    (c as int) - 48
  }

  /** strconv.Itoa on a non-negative counter. */
  function Itoa(n: nat): (s: string)
    ensures |s| >= 1
    ensures AllDigits(s)
  {
    if n < 10 then [DigitChar(n)] else Itoa(n / 10) + [DigitChar(n % 10)]
  }

  /** The inverse of Itoa: reads a string of decimal digits. */
  function ParseNat(s: string): nat
    requires AllDigits(s)
  {
    if |s| == 0 then 0 else 10 * ParseNat(s[..|s| - 1]) + DigitValue(s[|s| - 1])
  }

  lemma {:induction false} ParseItoa(n: nat)
    ensures ParseNat(Itoa(n)) == n
  {
    if n >= 10 {
      var s := Itoa(n);
      assert s[..|s| - 1] == Itoa(n / 10);
      ParseItoa(n / 10);
    }
  }

  lemma ItoaInjective(a: nat, b: nat)
    ensures Itoa(a) == Itoa(b) ==> a == b
  {
    ParseItoa(a);
    ParseItoa(b);
  }

  /** 10 to the power w. */
  function Pow10(w: nat): (p: nat)
    ensures p >= 1
  {
    if w == 0 then 1 else 10 * Pow10(w - 1)
  }

  /** The last w decimal digits of n, zero-padded on the left. */
  function Digits(n: nat, w: nat): (s: string)
    ensures |s| == w
    ensures AllDigits(s)
  {
    if w == 0 then [] else Digits(n / 10, w - 1) + [DigitChar(n % 10)]
  }

  lemma {:induction false} ParseDigits(n: nat, w: nat)
    requires n < Pow10(w)
    ensures ParseNat(Digits(n, w)) == n
  {
    if w > 0 {
      var s := Digits(n, w);
      assert s[..|s| - 1] == Digits(n / 10, w - 1);
      ParseDigits(n / 10, w - 1);
    }
  }

  /** A number of at least 10^k has more than k digits. */
  lemma {:induction false} ItoaLong(n: nat, k: nat)
    requires n >= Pow10(k)
    ensures |Itoa(n)| > k
  {
    if k > 0 {
      ItoaLong(n / 10, k - 1);
    }
  }

  /** A number below 10^k, for k >= 1, has at most k digits. */
  lemma {:induction false} ItoaShort(n: nat, k: nat)
    requires k >= 1 && n < Pow10(k)
    ensures |Itoa(n)| <= k
  {
    if n >= 10 {
      ItoaShort(n / 10, k - 1);
    }
  }

  /** The number ioutil.TempFile puts after its prefix: the Go library of
      this code's era draws r and writes the last nine digits of
      1e9 + r % 1e9, that is r % 1e9 as nine zero-padded digits. A number the nine digits cannot hold (only
      reached past 10^9 taken names) is written out in full. */
  function TempSuffix(n: nat): (s: string)
    ensures AllDigits(s)
    ensures |s| >= 9
    ensures n < 1_000_000_000 ==> s == Digits(n, 9)
  {
    if n < 1_000_000_000 then Digits(n, 9)
    else
      assert Pow10(9) == 1_000_000_000;
      ItoaLong(n, 9);
      Itoa(n)
  }

  lemma TempSuffixInjective(a: nat, b: nat)
    ensures TempSuffix(a) == TempSuffix(b) ==> a == b
  {
    assert Pow10(9) == 1_000_000_000;
    if a < 1_000_000_000 {
      ParseDigits(a, 9);
    } else {
      ItoaLong(a, 9);
      ParseItoa(a);
    }
    if b < 1_000_000_000 {
      ParseDigits(b, 9);
    } else {
      ItoaLong(b, 9);
      ParseItoa(b);
    }
  }

  /** The two ways a name is derived from a base: a destination is probed as
      `orig`, then `orig` followed by 0, 1, 2, ...; a temporary file is the
      prefix followed by a nine-digit number. */
  datatype Scheme = Counter | Padded

  /** The n-th name probed under a scheme. */
  function Probe(scheme: Scheme, orig: Path, n: nat): Path {
    match scheme
    case Counter => if n == 0 then orig else orig + Itoa(n - 1)
    case Padded => orig + TempSuffix(n)
  }

  lemma ProbeInjective(scheme: Scheme, orig: Path, m: nat, n: nat)
    ensures Probe(scheme, orig, m) == Probe(scheme, orig, n) ==> m == n
  {
    var a, b := Probe(scheme, orig, m), Probe(scheme, orig, n);
    if a == b {
      match scheme
      case Counter =>
        if m != 0 && n != 0 {
          assert a[|orig|..] == Itoa(m - 1);
          assert b[|orig|..] == Itoa(n - 1);
          ItoaInjective(m - 1, n - 1);
        }
      case Padded =>
        assert a[|orig|..] == TempSuffix(m);
        assert b[|orig|..] == TempSuffix(n);
        TempSuffixInjective(m, n);
    }
  }

  /** The names probed before the n-th one. */
  function Tried(scheme: Scheme, orig: Path, n: nat): set<Path> {
    set k | 0 <= k < n :: Probe(scheme, orig, k)
  }

  lemma TriedStep(scheme: Scheme, orig: Path, n: nat)
    ensures Tried(scheme, orig, n + 1) == Tried(scheme, orig, n) + {Probe(scheme, orig, n)}
  {
  }

  /** The n-th probe is none of the earlier ones. */
  lemma ProbeFresh(scheme: Scheme, orig: Path, n: nat)
    ensures Probe(scheme, orig, n) !in Tried(scheme, orig, n)
  {
    if Probe(scheme, orig, n) in Tried(scheme, orig, n) {
      var k :| 0 <= k < n && Probe(scheme, orig, k) == Probe(scheme, orig, n);
      ProbeInjective(scheme, orig, k, n);
    }
  }

  lemma {:induction false} TriedSize(scheme: Scheme, orig: Path, n: nat)
    ensures |Tried(scheme, orig, n)| == n
  {
    if n > 0 {
      var before, x := Tried(scheme, orig, n - 1), Probe(scheme, orig, n - 1);
      TriedSize(scheme, orig, n - 1);
      TriedStep(scheme, orig, n - 1);
      ProbeFresh(scheme, orig, n - 1);
      assert |before + {x}| == |before| + 1;
    }
  }

  lemma SubsetSize<T>(a: set<T>, b: set<T>)
    requires a <= b
    ensures |a| <= |b|
  {
    if a != {} {
      var x :| x in a;
      SubsetSize(a - {x}, b - {x});
    }
  }

  function FreeIndexFrom(existing: set<Path>, scheme: Scheme, orig: Path, n: nat): (r: nat)
    requires forall k :: 0 <= k < n ==> Probe(scheme, orig, k) in existing
    ensures n <= r
    ensures Probe(scheme, orig, r) !in existing
    ensures forall k :: 0 <= k < r ==> Probe(scheme, orig, k) in existing
    decreases existing - Tried(scheme, orig, n)
  {
    if Probe(scheme, orig, n) !in existing then n
    else
      ProbeFresh(scheme, orig, n);
      TriedStep(scheme, orig, n);
      FreeIndexFrom(existing, scheme, orig, n + 1)
  }

  /** How many names the probing loop steps over: every earlier candidate
      exists, the chosen one does not, and the search never needs more than
      one probe per existing name. */
  function FreeIndex(existing: set<Path>, scheme: Scheme, orig: Path): (r: nat)
    ensures Probe(scheme, orig, r) !in existing
    ensures forall k :: 0 <= k < r ==> Probe(scheme, orig, k) in existing
    ensures r <= |existing|
  {
    var r := FreeIndexFrom(existing, scheme, orig, 0);
    assert Tried(scheme, orig, r) <= existing;
    TriedSize(scheme, orig, r);
    SubsetSize(Tried(scheme, orig, r), existing);
    r
  }

  /** d is orig itself or orig followed by a decimal counter. */
  ghost predicate DerivedName(orig: Path, d: Path) {
    d == orig || exists k: nat :: d == orig + Itoa(k)
  }

  /** The destination the probing loop settles on. It never names an existing
      path; it is `orig` exactly when `orig` is free; otherwise it is `orig`
      followed by a counter (FreeNameFirst: the smallest one whose name is free). */
  function FreeName(existing: set<Path>, orig: Path): (r: Path)
    ensures r !in existing
    ensures r == orig <==> orig !in existing
    ensures DerivedName(orig, r)
  {
    var n := FreeIndex(existing, Counter, orig);
    assert n > 0 ==> Probe(Counter, orig, n) == orig + Itoa(n - 1) && |Probe(Counter, orig, n)| > |orig|;
    Probe(Counter, orig, n)
  }

  /** The counter FreeName appends is the smallest free one: every name with
      a smaller counter exists. */
  lemma FreeNameFirst(existing: set<Path>, orig: Path, k: nat)
    requires FreeName(existing, orig) == orig + Itoa(k)
    ensures forall j: nat :: j < k ==> orig + Itoa(j) in existing
  {
    var n := FreeIndex(existing, Counter, orig);
    assert n > 0 by {
      assert |orig + Itoa(k)| > |orig|;
    }
    assert Probe(Counter, orig, n) == Probe(Counter, orig, k + 1);
    ProbeInjective(Counter, orig, n, k + 1);
    forall j: nat | j < k
      ensures orig + Itoa(j) in existing
    {
      assert Probe(Counter, orig, j + 1) == orig + Itoa(j);
    }
  }

  /** One more existing name changes the destination only if it is the
      destination itself. */
  lemma FreeNameIgnores(existing: set<Path>, orig: Path, x: Path)
    requires FreeName(existing, orig) != x
    ensures FreeName(existing + {x}, orig) == FreeName(existing, orig)
  {
    var n := FreeIndex(existing, Counter, orig);
    var m := FreeIndex(existing + {x}, Counter, orig);
    assert Probe(Counter, orig, n) != x;
    assert m == n;
  }

  /** A taken name whose first counter name is free gives that counter name. */
  lemma FreeNameSecond(existing: set<Path>, orig: Path)
    requires orig in existing && orig + "0" !in existing
    ensures FreeName(existing, orig) == orig + "0"
  {
    var n := FreeIndex(existing, Counter, orig);
    assert Itoa(0) == "0";
    assert Probe(Counter, orig, 1) == orig + "0";
    assert n == 1;
  }
}
