/**
 * numpy's `array_split(ary, sections)` with an integer section count, and the
 * `math.ceil(n / d)` that the symbol chunker feeds it.
 */
module ArraySplit {
  import opened Wrappers

  /** `array_split` raises `ValueError('number sections must be larger than 0.')`. */
  datatype SplitError = NonPositiveSections

  /** The chunks laid end to end, in order. */
  function Concat<T>(chunks: seq<seq<T>>): seq<T> {
    if |chunks| == 0 then [] else Concat(chunks[..|chunks| - 1]) + chunks[|chunks| - 1]
  }

  function Min(a: int, b: int): int {
    if a <= b then a else b
  }

  /**
   * `math.ceil(n / d)` for a non-negative `n` and a non-zero `d`, over exact
   * rationals (Python divides in floating point; see README).
   */
  function CeilDiv(n: nat, d: int): (q: int)
    requires d != 0
    ensures d > 0 ==> (q - 1) * d < n <= q * d
    ensures d < 0 ==> q <= 0
    ensures q > 0 <==> d > 0 && n > 0
  {
    if d > 0 then (n + d - 1) / d else -(n / -d)
  }

  /** numpy's section sizes: the first `n % k` sections have `n / k + 1` elements, the rest `n / k`. */
  function SectionSize(n: nat, k: nat, i: nat): nat
    requires k > 0
  {
    n / k + (if i < n % k then 1 else 0)
  }

  /** Where section `i` starts: the running sum of the sizes of the sections before it. */
  function DivPoint(n: nat, k: nat, i: nat): nat
    requires k > 0
  {
    if i == 0 then 0 else DivPoint(n, k, i - 1) + SectionSize(n, k, i - 1)
  }

  /** The closed form numpy computes the division points by. */
  lemma {:induction false} DivPointClosedForm(n: nat, k: nat, i: nat)
    requires k > 0
    ensures DivPoint(n, k, i) == i * (n / k) + Min(i, n % k)
  {
    if i > 0 {
      DivPointClosedForm(n, k, i - 1);
      assert i * (n / k) == (i - 1) * (n / k) + n / k;
    }
  }

  lemma DivPointsBounded(n: nat, k: nat)
    requires k > 0
    ensures DivPoint(n, k, k) == n
    ensures forall i :: 0 <= i <= k ==> DivPoint(n, k, i) <= n
  {
    DivPointClosedForm(n, k, k);
    forall i | 0 <= i <= k
      ensures DivPoint(n, k, i) <= n
    {
      DivPointMonotone(n, k, i, k);
    }
  }

  lemma {:induction false} DivPointMonotone(n: nat, k: nat, i: nat, j: nat)
    requires k > 0 && i <= j
    ensures DivPoint(n, k, i) <= DivPoint(n, k, j)
    decreases j - i
  {
    if i < j {
      DivPointMonotone(n, k, i, j - 1);
    }
  }

  /** The first `j` sections laid end to end are exactly the first `DivPoint(j)` elements. */
  lemma {:induction false} ConcatSections<T>(s: seq<T>, k: nat, chunks: seq<seq<T>>, j: nat)
    requires k > 0 && |chunks| == k && j <= k
    requires forall i :: 0 <= i <= k ==> DivPoint(|s|, k, i) <= |s|
    requires forall i :: 0 <= i < k ==> chunks[i] == s[DivPoint(|s|, k, i)..DivPoint(|s|, k, i + 1)]
    ensures Concat(chunks[..j]) == s[..DivPoint(|s|, k, j)]
  {
    if j > 0 {
      ConcatSections(s, k, chunks, j - 1);
      assert chunks[..j][..j - 1] == chunks[..j - 1];
      var a, b := DivPoint(|s|, k, j - 1), DivPoint(|s|, k, j);
      assert b <= |s|;
      assert chunks[j - 1] == s[a..b];
      assert s[..b] == s[..a] + s[a..b];
    }
  }

  /** The `k` slices of `s` between consecutive division points. */
  function Sections<T>(s: seq<T>, k: nat): (r: seq<seq<T>>)
    requires k > 0
    ensures |r| == k && Concat(r) == s
    ensures forall i :: 0 <= i < k ==> |r[i]| == SectionSize(|s|, k, i)
  {
    DivPointsBounded(|s|, k);
    var chunks := seq(k, i requires 0 <= i < k => s[DivPoint(|s|, k, i)..DivPoint(|s|, k, i + 1)]);
    ConcatSections(s, k, chunks, k);
    assert chunks[..k] == chunks;
    chunks
  }

  /**
   * `np.array_split(s, sections)`: `sections` consecutive pieces of `s` whose
   * sizes differ by at most one, the longer ones first.
   */
  function Split<T>(s: seq<T>, sections: int): (r: Result<seq<seq<T>>, SplitError>)
    ensures r.Ok? <==> sections > 0
    ensures r.Ok? ==> |r.value| == sections && Concat(r.value) == s
    ensures r.Ok? ==> forall i :: 0 <= i < |r.value| ==> |r.value[i]| == SectionSize(|s|, sections, i)
  {
    if sections <= 0 then Err(NonPositiveSections) else Ok(Sections(s, sections))
  }

  /** Sizes never differ by more than one, and a longer section never follows a shorter one. */
  lemma SectionSizesBalanced(n: nat, k: nat, i: nat, j: nat)
    requires k > 0 && i <= j < k
    ensures SectionSize(n, k, j) <= SectionSize(n, k, i) <= SectionSize(n, k, j) + 1
  {
  }

  lemma MulMonotone(a: int, b: int, c: int)
    requires a >= 0 && b <= c
    ensures a * b <= a * c
  {
  }

  lemma MulStrict(a: int, b: int, c: int)
    requires a > 0 && b < c
    ensures a * b < a * c
  {
  }

  /**
   * When `k` is `ceil(n / c)` for a positive `c` and a non-empty input, there
   * are at most `n` sections, and every section is non-empty and holds at most
   * `c` elements.
   */
  lemma CeilSectionsFit(n: nat, c: int, i: nat)
    requires c > 0 && n > 0
    requires i < CeilDiv(n, c)
    ensures CeilDiv(n, c) <= n
    ensures 1 <= SectionSize(n, CeilDiv(n, c), i) <= c
  {
    var k := CeilDiv(n, c);
    var q, r := n / k, n % k;
    assert n == k * q + r;
    MulMonotone(k - 1, 1, c);
    assert k <= n;
    assert q >= 1;
    if r == 0 {
      assert k * q <= k * c;
      if q > c { MulStrict(k, c, q); }
    } else {
      assert k * q < k * c;
      if q >= c { MulMonotone(k, c, q); }
    }
  }
}
