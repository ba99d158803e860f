/** Expanding a vector of bytes by its escapes, and finding where an expansion has to be cut. */
module Expansion {
  import opened Bytes
  import opened BitMasks
  import opened ColumnEncoder

  /** Every byte encoded, escaped where its flag says so. */
  function Expand(data: seq<byte>, flags: seq<bool>): (e: seq<byte>)
    requires |data| == |flags|
    ensures |e| == |flags| + Count(flags)
  {
    if flags == [] then [] else Encoded(data[0], flags[0]) + Expand(data[1..], flags[1..])
  }

  lemma {:induction false} ExpandConcat(d: seq<byte>, e: seq<byte>, f: seq<bool>, g: seq<bool>)
    requires |d| == |f| && |e| == |g|
    ensures Expand(d + e, f + g) == Expand(d, f) + Expand(e, g)
  {
    if f == [] {
      assert d + e == e && f + g == g;
    } else {
      assert (d + e)[1..] == d[1..] + e && (f + g)[1..] == f[1..] + g;
      ExpandConcat(d[1..], e, f[1..], g);
    }
  }

  // Bytes the first k lanes expand to.
  function Width(flags: seq<bool>, k: nat): nat
    requires k <= |flags|
  {
    if k == 0 then 0 else (if flags[0] then 2 else 1) + Width(flags[1..], k - 1)
  }

  lemma {:induction false} WidthPush(flags: seq<bool>, k: nat)
    requires k < |flags|
    ensures Width(flags, k + 1) == Width(flags, k) + (if flags[k] then 2 else 1)
  {
    if k > 0 {
      WidthPush(flags[1..], k - 1);
    }
  }

  lemma {:induction false} WidthAll(flags: seq<bool>)
    ensures Width(flags, |flags|) == |flags| + Count(flags)
  {
    if flags != [] {
      WidthAll(flags[1..]);
    }
  }

  lemma {:induction false} WidthInFront(f: seq<bool>, g: seq<bool>, k: nat)
    requires k <= |f|
    ensures Width(f + g, k) == Width(f, k)
  {
    if k > 0 {
      assert (f + g)[1..] == f[1..] + g;
      WidthInFront(f[1..], g, k - 1);
    }
  }

  lemma {:induction false} WidthBehind(f: seq<bool>, g: seq<bool>, k: nat)
    requires k <= |g|
    ensures Width(f + g, |f| + k) == |f| + Count(f) + Width(g, k)
  {
    if f == [] {
      assert f + g == g;
    } else {
      assert (f + g)[1..] == f[1..] + g;
      WidthBehind(f[1..], g, k);
    }
  }

  // ----- cuts

  /** k lanes are what can stay when an expansion is cut after m bytes: it ends there, or one
      byte before, where the cut would split the next lane's escape pair. */
  predicate IsCut(flags: seq<bool>, m: nat, k: nat) {
    && k <= |flags|
    && (|| Width(flags, k) == m
        || (k < |flags| && flags[k] && Width(flags, k) + 1 == m))
  }

  lemma CutIsUnique(flags: seq<bool>, m: nat, k: nat, l: nat)
    requires IsCut(flags, m, k) && IsCut(flags, m, l)
    ensures k == l
  {
    if k < l {
      WidthGrows(flags, k + 1, l);
      WidthPush(flags, k);
    } else if l < k {
      WidthGrows(flags, l + 1, k);
      WidthPush(flags, l);
    }
  }

  lemma {:induction false} WidthGrows(flags: seq<bool>, k: nat, l: nat)
    requires k <= l <= |flags|
    ensures Width(flags, k) + (l - k) <= Width(flags, l)
    decreases l - k
  {
    if k < l {
      WidthGrows(flags, k, l - 1);
      WidthPush(flags, l - 1);
    }
  }

  lemma CutPop(flags: seq<bool>, m: nat, k: nat)
    requires flags != [] && IsCut(flags[1..], m, k)
    ensures IsCut(flags, m + (if flags[0] then 2 else 1), k + 1)
  {
  }

  lemma CutInFront(f: seq<bool>, g: seq<bool>, m: nat, k: nat)
    requires IsCut(f, m, k)
    ensures IsCut(f + g, m, k)
  {
    WidthInFront(f, g, k);
  }

  lemma CutBehind(f: seq<bool>, g: seq<bool>, m: nat, k: nat)
    requires IsCut(g, m, k)
    ensures IsCut(f + g, |f| + Count(f) + m, |f| + k)
  {
    WidthBehind(f, g, k);
  }

  // The escape characters of an expansion, byte by byte.
  function Marks(flags: seq<bool>): (marks: seq<bool>)
    ensures |marks| == |flags| + Count(flags)
  {
    if flags == [] then [] else (if flags[0] then [true, false] else [false]) + Marks(flags[1..])
  }

  lemma {:induction false} CountMarks(flags: seq<bool>)
    ensures Count(Marks(flags)) == Count(flags)
  {
    if flags != [] {
      CountMarks(flags[1..]);
      CountConcat(if flags[0] then [true, false] else [false], Marks(flags[1..]));
    }
  }

  lemma {:induction false} MarksConcat(f: seq<bool>, g: seq<bool>)
    ensures Marks(f + g) == Marks(f) + Marks(g)
  {
    if f == [] {
      assert f + g == g;
    } else {
      assert (f + g)[1..] == f[1..] + g;
      MarksConcat(f[1..], g);
    }
  }

  // Bytes to take back so as not to split a pair, from the marks at and after the cut's last byte.
  function Revert(tail: seq<bool>): nat
    requires tail != []
  {
    |tail| - 1 + (if tail[0] then 1 else 0)
  }

  /** The slow path's arithmetic: the marks from the byte before the cut on tell how many bytes,
      and how many lanes, to take back. */
  lemma {:induction false} MarksCut(flags: seq<bool>, m: nat)
    requires 1 <= m <= |Marks(flags)|
    ensures var tail := Marks(flags)[m - 1..];
      var k := |flags| + Count(tail) - Revert(tail);
      0 <= k && IsCut(flags, m, k) && Width(flags, k) + Revert(tail) == |Marks(flags)|
  {
    var w, rest := if flags[0] then 2 else 1, Marks(flags[1..]);
    if m <= w {
      MarksCutFirst(flags, m);
    } else {
      MarksCut(flags[1..], m - w);
      assert Marks(flags)[m - 1..] == rest[m - w - 1..];
      var k := |flags| - 1 + Count(rest[m - w - 1..]) - Revert(rest[m - w - 1..]);
      CutPop(flags, m - w, k);
      hide IsCut, Revert, Count, Marks;
    }
  }

  lemma MarksCutFirst(flags: seq<bool>, m: nat)
    requires flags != [] && 1 <= m <= (if flags[0] then 2 else 1)
    ensures m <= |Marks(flags)|
    ensures var tail := Marks(flags)[m - 1..];
      var k := |flags| + Count(tail) - Revert(tail);
      0 <= k && IsCut(flags, m, k) && Width(flags, k) + Revert(tail) == |Marks(flags)|
  {
    hide Marks, Count, Width;
    var rest := Marks(flags[1..]);
    FirstLane(flags);
    CountMarks(flags[1..]);
    if m == 1 && flags[0] {
      CountMarks(flags);
      assert Marks(flags)[m - 1..] == Marks(flags);
    } else {
      assert Marks(flags)[m - 1..] == [false] + rest;
      CountConcat([false], rest);
    }
  }

  lemma FirstLane(flags: seq<bool>)
    requires flags != []
    ensures Marks(flags) == (if flags[0] then [true, false] else [false]) + Marks(flags[1..])
    ensures Count(flags) == (if flags[0] then 1 else 0) + Count(flags[1..])
    ensures Width(flags, 0) == 0 && Width(flags, 1) == (if flags[0] then 2 else 1) && Count([false]) == 0
  {
  }

  // ----- at most one escape

  // Clear lanes above the last set one, as LeadingZeros32 counts them.
  function LeadingZeros(flags: seq<bool>): (z: nat)
    ensures z <= |flags|
  {
    if flags == [] || flags[|flags| - 1] then 0 else 1 + LeadingZeros(flags[..|flags| - 1])
  }

  function Clear(n: nat): (flags: seq<bool>)
    ensures |flags| == n
  {
    seq(n, _ => false)
  }

  lemma {:induction false} NoFlags(flags: seq<bool>)
    requires Count(flags) == 0
    ensures flags == Clear(|flags|)
  {
    if flags != [] {
      NoFlags(flags[1..]);
    }
  }

  /** With at most one flag set, the zeros above it tell where it is. */
  lemma {:induction false} OneFlag(flags: seq<bool>)
    requires Count(flags) <= 1
    ensures var z := LeadingZeros(flags);
      if z == |flags| then flags == Clear(|flags|) && Count(flags) == 0
      else flags == Clear(|flags| - 1 - z) + [true] + Clear(z) && Count(flags) == 1
  {
    if flags != [] {
      var front, last := flags[..|flags| - 1], flags[|flags| - 1];
      assert flags == front + [last];
      CountConcat(front, [last]);
      if last {
        NoFlags(front);
      } else {
        OneFlag(front);
      }
    }
  }

  lemma {:induction false} ClearCount(n: nat)
    ensures Count(Clear(n)) == 0
  {
    if n > 0 {
      assert Clear(n)[1..] == Clear(n - 1);
      ClearCount(n - 1);
    }
  }

  lemma {:induction false} ClearWidth(n: nat, k: nat)
    requires k <= n
    ensures Width(Clear(n), k) == k
  {
    if k > 0 {
      assert Clear(n)[1..] == Clear(n - 1);
      ClearWidth(n - 1, k - 1);
    }
  }

  lemma OneFlagWidth(p: nat, z: nat, k: nat)
    requires k <= p + 1 + z
    ensures Width(Clear(p) + [true] + Clear(z), k) == if k <= p then k else k + 1
  {
    var flags := Clear(p) + [true] + Clear(z);
    assert flags == Clear(p) + ([true] + Clear(z));
    ClearCount(p);
    if k <= p {
      WidthInFront(Clear(p), [true] + Clear(z), k);
      ClearWidth(p, k);
    } else {
      WidthBehind(Clear(p), [true] + Clear(z), k - p);
      assert ([true] + Clear(z))[1..] == Clear(z);
      ClearWidth(z, k - p - 1);
    }
  }

  // What the fast path takes back when it has to cut r bytes off: lanes, and perhaps one more byte.
  function FastLanes(r: nat, z: nat): nat {
    if r > z + 1 then r - 1 else r
  }

  predicate Splits(flags: seq<bool>, r: nat) {
    r == LeadingZeros(flags) + 1
  }

  // The fast path takes back the right lanes, and the pair's first byte where it has to.
  predicate FastCutIsRight(flags: seq<bool>, r: nat)
    requires r <= |flags| + Count(flags)
  {
    var k := |flags| - FastLanes(r, LeadingZeros(flags));
    var width := |flags| + Count(flags) - r;
    && 0 <= k
    && IsCut(flags, width, k)
    && Width(flags, k) == width - (if Splits(flags, r) then 1 else 0)
  }

  lemma {:induction false} CountlessWidth(flags: seq<bool>, k: nat)
    requires Count(flags) == 0 && k <= |flags|
    ensures Width(flags, k) == k
  {
    if k > 0 {
      CountlessWidth(flags[1..], k - 1);
    }
  }

  lemma NoFlagCut(flags: seq<bool>, r: nat)
    requires LeadingZeros(flags) == |flags| && Count(flags) == 0
    requires r <= |flags| + Count(flags)
    ensures FastCutIsRight(flags, r)
  {
    hide Count, Width, LeadingZeros;
    CountlessWidth(flags, |flags| - r);
    assert FastLanes(r, LeadingZeros(flags)) == r && !Splits(flags, r);
    hide *;
    CutWhere(flags, r);
  }

  lemma CutWhere(flags: seq<bool>, r: nat)
    requires r <= |flags| && Count(flags) == 0 && FastLanes(r, LeadingZeros(flags)) == r && !Splits(flags, r)
    requires Width(flags, |flags| - r) == |flags| - r
    ensures FastCutIsRight(flags, r)
  {
    hide Count, Width, LeadingZeros, FastLanes, Splits;
  }

  lemma SomeFlagCut(flags: seq<bool>, p: nat, z: nat, r: nat)
    requires flags == Clear(p) + [true] + Clear(z) && LeadingZeros(flags) == z && Count(flags) == 1
    requires r <= |flags| + Count(flags)
    ensures FastCutIsRight(flags, r)
  {
    OneFlagWidth(p, z, |flags| - FastLanes(r, z));
    assert flags[p];
  }

  /** The fast path's arithmetic. Taking back r bytes takes back one more when that would split
      the pair, and one lane fewer when the whole pair goes. */
  lemma OneFlagCut(flags: seq<bool>, r: nat)
    requires Count(flags) <= 1 && r <= |flags| + Count(flags)
    ensures FastCutIsRight(flags, r)
  {
    hide *;
    OneFlag(flags);
    var z := LeadingZeros(flags);
    if z == |flags| {
      NoFlagCut(flags, r);
    } else {
      SomeFlagCut(flags, |flags| - 1 - z, z, r);
    }
  }

  lemma {:induction false} ExpandClear(data: seq<byte>, t: nat)
    requires t < |data|
    ensures Count(Clear(|data|)) == 0
    ensures Expand(data, Clear(|data|))[t] == data[t] + SHIFT
  {
    ClearCount(|data|);
    ClearCount(|data| - 1);
    assert Clear(|data|)[1..] == Clear(|data| - 1);
    if t > 0 {
      ExpandClear(data[1..], t - 1);
    }
  }

  lemma ExpandUnit(c: byte)
    ensures Expand([c], [true]) == [EQUALS, c + ESCAPED_SHIFT]
  {
  }

  // What precedes the escaped byte, its pair, and what follows it.
  lemma ExpandAround(data: seq<byte>, p: nat)
    requires p < |data|
    ensures Expand(data, Clear(p) + [true] + Clear(|data| - 1 - p))
      == Expand(data[..p], Clear(p)) + [EQUALS, data[p] + ESCAPED_SHIFT] + Expand(data[p + 1..], Clear(|data| - 1 - p))
    ensures |Expand(data[..p], Clear(p))| == p
    ensures |Expand(data[p + 1..], Clear(|data| - 1 - p))| == |data| - 1 - p
  {
    hide Expand, Encoded;
    var low, high := Clear(p), Clear(|data| - 1 - p);
    ClearCount(p);
    ClearCount(|data| - 1 - p);
    assert data == data[..p] + ([data[p]] + data[p + 1..]);
    assert low + [true] + high == low + ([true] + high);
    ExpandConcat(data[..p], [data[p]] + data[p + 1..], low, [true] + high);
    ExpandConcat([data[p]], data[p + 1..], [true], high);
    ExpandUnit(data[p]);
  }

  /** A vector with one escape, byte by byte. */
  lemma ExpandOne(data: seq<byte>, p: nat, t: nat)
    requires p < |data| && t <= |data|
    ensures var flags := Clear(p) + [true] + Clear(|data| - 1 - p);
      && |Expand(data, flags)| == |data| + 1
      && Expand(data, flags)[t] ==
        (if t < p then data[t] + SHIFT else if t == p then EQUALS
         else if t == p + 1 then data[p] + ESCAPED_SHIFT else data[t - 1] + SHIFT)
  {
    hide Expand;
    ExpandAround(data, p);
    if t < p {
      ExpandClear(data[..p], t);
    } else if p + 2 <= t {
      ExpandClear(data[p + 1..], t - p - 2);
    }
  }
}
