/**
 The run-length fallback of the page compressor (`CompressionEngine::compressPage`, memory/vmm.hpp):
 a greedy encoder into (count, byte) pairs, and its in-place store with zero padding.
 */
module RunLength {
  import opened Prelude

  const MAX_COUNT: nat := 255

  /** A pair of the encoding: `count` copies of `value`. */
  datatype Pair = Pair(count: nat, value: Byte)

  ghost predicate WellFormed(ps: seq<Pair>) {
    forall i | 0 <= i < |ps| :: 1 <= ps[i].count <= MAX_COUNT
  }

  function Repeat(n: nat, v: Byte): seq<Byte> {
    seq(n, i => v)
  }

  function Expand(ps: seq<Pair>): seq<Byte> {
    if ps == [] then [] else Repeat(ps[0].count, ps[0].value) + Expand(ps[1..])
  }

  /** Goes on counting the bytes equal to the one at i, having seen n of them. */
  function CountFrom(s: seq<Byte>, i: nat, n: nat): (r: nat)
    requires 1 <= n <= MAX_COUNT && i + n <= |s|
    ensures n <= r <= MAX_COUNT && i + r <= |s|
    decreases MAX_COUNT - n
  {
    if n < MAX_COUNT && i + n < |s| && s[i + n] == s[i] then CountFrom(s, i, n + 1) else n
  }

  /** The count covers equal bytes, and could not have gone further. */
  lemma {:induction false} CountFromIsMaximal(s: seq<Byte>, i: nat, n: nat)
    requires 1 <= n <= MAX_COUNT && i + n <= |s|
    ensures var r := CountFrom(s, i, n);
            && (forall j | i + n <= j < i + r :: s[j] == s[i])
            && (r == MAX_COUNT || i + r == |s| || s[i + r] != s[i])
    decreases MAX_COUNT - n
  {
    if n < MAX_COUNT && i + n < |s| && s[i + n] == s[i] { CountFromIsMaximal(s, i, n + 1); }
  }

  /** The greedy encoding from i on: as long a run as a count can hold, then the rest. */
  function EncodeFrom(s: seq<Byte>, i: nat): (ps: seq<Pair>)
    requires i <= |s|
    ensures WellFormed(ps)
    decreases |s| - i
  {
    if i == |s| then []
    else
      var n := CountFrom(s, i, 1);
      [Pair(n, s[i])] + EncodeFrom(s, i + n)
  }

  function Encode(s: seq<Byte>): (ps: seq<Pair>)
    ensures WellFormed(ps)
  {
    EncodeFrom(s, 0)
  }

  lemma ExpandEncodeStep(s: seq<Byte>, i: nat)
    requires i < |s|
    ensures var n := CountFrom(s, i, 1);
            Expand(EncodeFrom(s, i)) == Repeat(n, s[i]) + Expand(EncodeFrom(s, i + n))
  {
  }

  lemma RunThenRest(s: seq<Byte>, i: nat)
    requires i < |s|
    ensures var n := CountFrom(s, i, 1); s[i..] == Repeat(n, s[i]) + s[i + n..]
  {
    CountFromIsMaximal(s, i, 1);
  }

  lemma {:induction false} EncodeFromIsLossless(s: seq<Byte>, i: nat)
    requires i <= |s|
    ensures Expand(EncodeFrom(s, i)) == s[i..]
    decreases |s| - i
  {
    if i == |s| {
    } else {
      EncodeFromIsLossless(s, i + CountFrom(s, i, 1));
      ExpandEncodeStep(s, i);
      RunThenRest(s, i);
    }
  }

  // ----- optimality

  /** A greedy run covers any stretch of at most 255 equal bytes that starts with it. */
  lemma RunReaches(s: seq<Byte>, i: nat, k: nat)
    requires 1 <= k <= MAX_COUNT && i + k <= |s| && forall j | i <= j < i + k :: s[j] == s[i]
    ensures CountFrom(s, i, 1) >= k
  {
    CountFromIsMaximal(s, i, 1);
  }

  lemma EncodeFromStep(s: seq<Byte>, i: nat)
    requires i < |s|
    ensures var n := CountFrom(s, i, 1); EncodeFrom(s, i) == [Pair(n, s[i])] + EncodeFrom(s, i + n)
  {
  }

  /** From inside the run at i, the greedy run reaches at least to the end of that run. */
  lemma InnerRunReaches(s: seq<Byte>, i: nat, j: nat)
    requires i < |s| && i <= j < i + CountFrom(s, i, 1)
    ensures j < |s| && j + CountFrom(s, j, 1) >= i + CountFrom(s, i, 1)
  {
    CountFromIsMaximal(s, i, 1);
    RunReaches(s, j, i + CountFrom(s, i, 1) - j);
  }

  /** Starting later never lengthens the encoding. */
  lemma {:induction false} EncodeFromShrinks(s: seq<Byte>, i: nat, j: nat)
    requires i <= j <= |s|
    ensures |EncodeFrom(s, j)| <= |EncodeFrom(s, i)|
    decreases |s| - i
  {
    if i == j {
    } else {
      var next := i + CountFrom(s, i, 1);
      EncodeFromStep(s, i);
      if next <= j {
        EncodeFromShrinks(s, next, j);
      } else {
        InnerRunReaches(s, i, j);
        EncodeFromStep(s, j);
        EncodeFromShrinks(s, next, j + CountFrom(s, j, 1));
      }
    }
  }

  /** The first pair of any list for s[i..] is no longer than the greedy run. */
  lemma FirstPairFitsRun(s: seq<Byte>, i: nat, p: Pair, rest: seq<Byte>)
    requires i <= |s| && 1 <= p.count <= MAX_COUNT && s[i..] == Repeat(p.count, p.value) + rest
    ensures i < |s| && p.count <= CountFrom(s, i, 1) && i + p.count <= |s| && rest == s[i + p.count..]
  {
    var t := s[i..];
    assert t[p.count..] == rest && t[p.count..] == s[i + p.count..];
    assert forall j | i <= j < i + p.count :: s[j] == t[j - i];
    RunReaches(s, i, p.count);
  }

  /** Emitting a shorter first pair than the greedy one never pays off. */
  lemma GreedyStepIsBest(s: seq<Byte>, i: nat, k: nat)
    requires i < |s| && k <= CountFrom(s, i, 1)
    ensures |EncodeFrom(s, i)| <= 1 + |EncodeFrom(s, i + k)|
  {
    var next := i + CountFrom(s, i, 1);
    assert i + k <= next <= |s|;
    EncodeFromStep(s, i);
    EncodeFromShrinks(s, i + k, next);
  }

  lemma {:induction false} EncodeFromIsOptimal(s: seq<Byte>, i: nat, ps: seq<Pair>)
    requires i <= |s| && WellFormed(ps) && Expand(ps) == s[i..]
    ensures |EncodeFrom(s, i)| <= |ps|
    decreases |ps|
  {
    if ps == [] {
    } else {
      var k := ps[0].count;
      FirstPairFitsRun(s, i, ps[0], Expand(ps[1..]));
      assert WellFormed(ps[1..]);
      EncodeFromIsOptimal(s, i + k, ps[1..]);
      GreedyStepIsBest(s, i, k);
    }
  }

  /** Greedy is optimal: no list of pairs that expands to s is shorter than the encoder's. */
  lemma EncodeIsOptimal(s: seq<Byte>, ps: seq<Pair>)
    requires WellFormed(ps) && Expand(ps) == s
    ensures Expand(Encode(s)) == s && |Encode(s)| <= |ps|
  {
    assert s[0..] == s;
    EncodeFromIsLossless(s, 0);
    EncodeFromIsOptimal(s, 0, ps);
  }

  // ----- the bytes in the page

  function Flatten(ps: seq<Pair>): (b: seq<Byte>)
    requires WellFormed(ps)
    ensures |b| == 2 * |ps|
  {
    if ps == [] then [] else [ps[0].count, ps[0].value] + Flatten(ps[1..])
  }

  lemma {:induction false} FlattenAt(ps: seq<Pair>, k: nat)
    requires WellFormed(ps) && k < |ps|
    ensures Flatten(ps)[2 * k] == ps[k].count && Flatten(ps)[2 * k + 1] == ps[k].value
    decreases k
  {
    if k == 0 {
    } else {
      FlattenAt(ps[1..], k - 1);
      assert ps[1..][k - 1] == ps[k];
    }
  }

  /** Reads pairs off the front until a zero count, without knowing how many there are. */
  function ReadPairs(b: seq<Byte>): (ps: seq<Pair>)
    ensures WellFormed(ps)
  {
    if |b| < 2 || b[0] == 0 then [] else [Pair(b[0], b[1])] + ReadPairs(b[2..])
  }

  lemma DropTwo(head: seq<Byte>, rest: seq<Byte>, tail: seq<Byte>)
    requires |head| == 2
    ensures var b := head + rest + tail; b[0] == head[0] && b[1] == head[1] && b[2..] == rest + tail
  {
  }

  lemma {:induction false} ReadFlattened(ps: seq<Pair>, tail: seq<Byte>)
    requires WellFormed(ps) && (|tail| < 2 || tail[0] == 0)
    ensures ReadPairs(Flatten(ps) + tail) == ps
  {
    if ps == [] {
      assert Flatten(ps) + tail == tail;
    } else {
      DropTwo([ps[0].count, ps[0].value], Flatten(ps[1..]), tail);
      ReadFlattened(ps[1..], tail);
      assert ps == [ps[0]] + ps[1..];
    }
  }

  /** The encoding leaves room for a terminating zero, so `compressPage` stores it. */
  predicate Stored(page: seq<Byte>) {
    2 * |Encode(page)| < PAGE_SIZE
  }

  /** The page after `compressPage`, when the first-choice compressor did not help. */
  function Compress(page: seq<Byte>): (r: seq<Byte>)
    requires |page| == PAGE_SIZE
    ensures |r| == PAGE_SIZE
  {
    var rle := Flatten(Encode(page));
    if |rle| < PAGE_SIZE then rle + Repeat(PAGE_SIZE - |rle|, 0) else page
  }

  /** `ps` is some pair list for the page that leaves room for a terminating zero. */
  ghost predicate FitsAs(page: seq<Byte>, ps: seq<Pair>) {
    WellFormed(ps) && Expand(ps) == page && 2 * |ps| < PAGE_SIZE
  }

  /** The encoding is stored exactly when any pair list at all for the page would be short enough. */
  lemma StoredExactlyWhenPossible(page: seq<Byte>)
    requires |page| == PAGE_SIZE
    ensures Stored(page) <==> exists ps :: FitsAs(page, ps)
  {
    assert page[0..] == page;
    EncodeFromIsLossless(page, 0);
    if Stored(page) { assert FitsAs(page, Encode(page)); }
    if ps :| FitsAs(page, ps) { EncodeIsOptimal(page, ps); }
  }

  /**
   The stored form is self-delimiting and lossless: reading pairs up to the first zero count and
   expanding them gives back the page. Otherwise the page is left alone.
   */
  lemma CompressIsLossless(page: seq<Byte>)
    requires |page| == PAGE_SIZE
    ensures Stored(page) ==> Expand(ReadPairs(Compress(page))) == page
    ensures Stored(page) ==> forall j | 2 * |Encode(page)| <= j < PAGE_SIZE :: Compress(page)[j] == 0
    ensures !Stored(page) ==> Compress(page) == page
  {
    var ps := Encode(page);
    assert page[0..] == page;
    EncodeFromIsLossless(page, 0);
    if Stored(page) {
      ReadFlattened(ps, Repeat(PAGE_SIZE - 2 * |ps|, 0));
    }
  }

  // ----- what the page alone does not say

  function StripeAt(j: nat): Byte {
    if j < 4 || j / 2 % 2 == 1 then 7 else 9
  }

  /** 2047 short runs: four 7s, then pairs of 9s and 7s in turn. */
  ghost predicate Striped(page: seq<Byte>) {
    |page| == PAGE_SIZE && forall j: nat | j < PAGE_SIZE :: page[j] == StripeAt(j)
  }

  function StripedPage(): (page: seq<Byte>)
    ensures Striped(page)
  {
    seq(PAGE_SIZE, j requires 0 <= j < PAGE_SIZE => StripeAt(j))
  }

  function StripePair(k: nat): Pair {
    Pair(if k == 0 then 4 else 2, if k % 2 == 0 then 7 else 9)
  }

  lemma StripedRun(page: seq<Byte>, k: nat)
    requires Striped(page) && 1 <= k < 2047
    ensures CountFrom(page, 2 + 2 * k, 1) == 2 && page[2 + 2 * k] == StripePair(k).value
  {
    var i := 2 + 2 * k;
    assert page[i] == page[i + 1] && (i + 2 < PAGE_SIZE ==> page[i + 2] != page[i]);
    assert CountFrom(page, i, 2) == 2;
  }

  lemma StripedStep(page: seq<Byte>, k: nat)
    requires Striped(page) && 1 <= k < 2047
    ensures EncodeFrom(page, 2 + 2 * k) == [StripePair(k)] + EncodeFrom(page, 2 + 2 * (k + 1))
  {
    StripedRun(page, k);
    EncodeFromStep(page, 2 + 2 * k);
    assert Pair(2, page[2 + 2 * k]) == StripePair(k);
  }

  lemma FirstStripe(page: seq<Byte>)
    requires Striped(page)
    ensures CountFrom(page, 0, 1) == 4 && page[0] == 7
  {
  }

  /** The pairs of a striped page from number k on. */
  function Stripes(k: nat): seq<Pair>
    requires k <= 2047
  {
    seq(2047 - k, j requires 0 <= j < 2047 - k => StripePair(k + j))
  }

  lemma StripesStep(k: nat)
    requires k < 2047
    ensures Stripes(k) == [StripePair(k)] + Stripes(k + 1)
  {
  }

  lemma {:induction false} StripedEncoding(page: seq<Byte>, k: nat)
    requires Striped(page) && 1 <= k <= 2047
    ensures EncodeFrom(page, 2 + 2 * k) == Stripes(k)
    decreases 2047 - k
  {
    if k == 2047 {
    } else {
      StripedEncoding(page, k + 1);
      StripedStep(page, k);
      StripesStep(k);
    }
  }

  lemma StripedPairs(page: seq<Byte>)
    requires Striped(page)
    ensures Encode(page) == Stripes(0)
  {
    StripedEncoding(page, 1);
    FirstStripe(page);
    EncodeFromStep(page, 0);
    StripesStep(0);
  }

  /** The striped page as it is stored, byte by byte. */
  function StoredStripe(j: nat): Byte {
    if j >= 4094 then 0 else if j % 2 == 0 then StripePair(j / 2).count else StripePair(j / 2).value
  }

  lemma StoredStripes(page: seq<Byte>, j: nat)
    requires Striped(page) && j < PAGE_SIZE
    ensures Compress(page)[j] == StoredStripe(j)
  {
    StripedPairs(page);
    if j < 4094 {
      var k := j / 2;
      FlattenAt(Stripes(0), k);
      assert j == 2 * k || j == 2 * k + 1;
    }
  }

  /** A page whose neighbouring bytes all differ, up to the last two, takes nearly a pair per byte. */
  lemma {:induction false} NoRunsNoGain(page: seq<Byte>, i: nat)
    requires i <= |page| && forall j | 0 <= j < |page| - 2 :: page[j] != page[j + 1]
    ensures |EncodeFrom(page, i)| >= |page| - 1 - i
    decreases |page| - i
  {
    if i >= |page| - 2 {
    } else {
      assert CountFrom(page, i, 1) == 1;
      NoRunsNoGain(page, i + 1);
    }
  }

  /** Stored, a striped page is incompressible itself. */
  lemma StoredStripesStay(page: seq<Byte>)
    requires Striped(page)
    ensures var q := Compress(page); q != page && !Stored(q)
  {
    var q := Compress(page);
    forall j: nat | j < PAGE_SIZE ensures q[j] == StoredStripe(j) { StoredStripes(page, j); }
    assert q[0] == 4 && page[0] == 7;
    NoRunsNoGain(q, 0);
  }

  /** q is a page that is left alone and looks just like the stored form of p. */
  ghost predicate Mimics(q: seq<Byte>, p: seq<Byte>)
    requires |p| == PAGE_SIZE
  {
    Stored(p) && !Stored(q) && q == Compress(p)
  }

  /**
   Two different pages end up as the same bytes exactly when one of them is stored, and the other
   is that stored form and incompressible itself.
   */
  lemma SameBytesExactly(p: seq<Byte>, q: seq<Byte>)
    requires |p| == |q| == PAGE_SIZE && p != q
    ensures Compress(p) == Compress(q) <==> Mimics(q, p) || Mimics(p, q)
  {
    CompressIsLossless(p);
    CompressIsLossless(q);
  }

  /** Some other page than p ends up with the bytes that p ends up with. */
  ghost predicate Ambiguous(p: seq<Byte>)
    requires |p| == PAGE_SIZE
  {
    exists q | |q| == PAGE_SIZE :: q != p && Compress(q) == Compress(p)
  }

  /** A stored page can be mistaken for another exactly when its stored form is incompressible itself. */
  lemma StoredIsAmbiguousExactly(p: seq<Byte>)
    requires |p| == PAGE_SIZE && Stored(p)
    ensures Ambiguous(p) <==> !Stored(Compress(p))
  {
    if q :| |q| == PAGE_SIZE && q != p && Compress(q) == Compress(p) {
      SameBytesExactly(p, q);
    }
    if !Stored(Compress(p)) {
      CompressIsLossless(Compress(p));
    }
  }

  /** A page left alone can be mistaken for another exactly when it is the stored form of some page. */
  lemma RawIsAmbiguousExactly(q: seq<Byte>)
    requires |q| == PAGE_SIZE && !Stored(q)
    ensures Ambiguous(q) <==> |Expand(ReadPairs(q))| == PAGE_SIZE && Mimics(q, Expand(ReadPairs(q)))
  {
    CompressIsLossless(q);
    if p :| |p| == PAGE_SIZE && p != q && Compress(p) == Compress(q) {
      SameBytesExactly(p, q);
      CompressIsLossless(p);
    }
  }

  /** It happens: the striped page is stored, and its stored form is another page, which is left alone. */
  lemma StoredAndRawCanCoincide()
    ensures var p := StripedPage(); Compress(p) != p && Mimics(Compress(p), p) && Ambiguous(p)
  {
    var p := StripedPage();
    StripedPairs(p);
    StoredStripesStay(p);
  }

  // ----- the compressor

  /** What the encoder still has to emit at position i. */
  function EmitFrom(page: seq<Byte>, i: nat): seq<Byte>
    requires i <= |page|
  {
    Flatten(EncodeFrom(page, i))
  }

  /** The output so far and what is still to come make up the whole encoding. */
  ghost predicate Emitted(page: seq<Byte>, i: nat, rle: seq<Byte>) {
    i <= |page| && rle + EmitFrom(page, i) == EmitFrom(page, 0)
  }

  lemma FlattenStep(p: Pair, rest: seq<Pair>)
    requires WellFormed([p] + rest)
    ensures WellFormed(rest) && Flatten([p] + rest) == [p.count, p.value] + Flatten(rest)
  {
    assert ([p] + rest)[1..] == rest;
  }

  lemma AppendTwo(rle: seq<Byte>, x: Byte, y: Byte, rest: seq<Byte>)
    ensures rle + [x] + [y] + rest == rle + ([x, y] + rest)
  {
  }

  lemma EmitFromStep(page: seq<Byte>, i: nat, count: Byte)
    requires i < |page| && count == CountFrom(page, i, 1)
    ensures EmitFrom(page, i) == [count, page[i]] + EmitFrom(page, i + count)
  {
    EncodeFromStep(page, i);
    FlattenStep(Pair(count, page[i]), EncodeFrom(page, i + count));
  }

  /** Emitting the pair at i moves the output on by one pair. */
  lemma EmitStep(page: seq<Byte>, i: nat, count: Byte, rle: seq<Byte>)
    requires i < |page| && count == CountFrom(page, i, 1) && Emitted(page, i, rle)
    ensures Emitted(page, i + count, rle + [count] + [page[i]])
  {
    EmitFromStep(page, i, count);
    AppendTwo(rle, count, page[i], EmitFrom(page, i + count));
  }

  /** The encoding loops: a pair per outer iteration, counted by the inner loop in a uint8_t. */
  method EncodePage(data: array<Byte>) returns (rle: seq<Byte>)
    ensures rle == Flatten(Encode(data[..]))
  {
    rle := [];
    ghost var page := data[..];
    var i := 0;
    while i < data.Length
      invariant Emitted(page, i, rle)
    {
      var count: Byte := 1;
      var current := data[i];
      while i + count < data.Length && data[i + count] == current && count < 255
        invariant 1 <= count <= MAX_COUNT && i + count <= data.Length
        invariant CountFrom(page, i, count) == CountFrom(page, i, 1)
        decreases MAX_COUNT - count
      {
        count := (count + 1) % 256;
      }
      EmitStep(page, i, count, rle);
      rle := rle + [count];
      rle := rle + [current];
      i := i + count;
    }
  }

  /** memcpy of the encoding over the page, then memset of the rest to zero. */
  method StoreOver(page: array<Byte>, rle: seq<Byte>)
    requires |rle| <= page.Length
    modifies page
    ensures page[..] == rle + Repeat(page.Length - |rle|, 0)
  {
    for i := 0 to |rle|
      invariant page[..i] == rle[..i]
    {
      page[i] := rle[i];
    }
    for i := |rle| to page.Length
      invariant page[..|rle|] == rle
      invariant forall j | |rle| <= j < i :: page[j] == 0
    {
      page[i] := 0;
    }
  }

  /** `incompressible` is the first-choice compressor's verdict: its output was no shorter than a page. */
  method CompressPage(page: array<Byte>, incompressible: bool)
    requires page.Length == PAGE_SIZE
    modifies page
    ensures page[..] == if incompressible then Compress(old(page[..])) else old(page[..])
  {
    if incompressible {
      var rle := EncodePage(page);
      if |rle| < PAGE_SIZE {
        StoreOver(page, rle);
      }
    }
  }
}
