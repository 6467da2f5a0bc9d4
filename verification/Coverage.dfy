/** The sort, merge and sweep that proves an ELF file holds nothing outside its
    described structures. */
module Coverage {
  import opened ByteCodec
  import opened Elf

  predicate Within(r: Range, x: int) {
    r.start <= x < r.end
  }

  /** Some range describes byte `x`. */
  predicate Described(rs: seq<Range>, x: int) {
    exists i | 0 <= i < |rs| :: Within(rs[i], x)
  }

  function FurthestEnd(rs: seq<Range>): (n: nat) {
    if rs == [] then 0
    else
      var rest, e := FurthestEnd(rs[..|rs| - 1]), rs[|rs| - 1].end;
      if e > rest then e else rest
  }

  /** Every nonzero byte is described, and the descriptions reach the end of the file. */
  ghost predicate Covered(image: Bytes, rs: seq<Range>) {
    && (forall x | 0 <= x < |image| && image[x] != 0 :: Described(rs, x))
    && FurthestEnd(rs) == |image|
  }

  predicate RangesIn(rs: seq<Range>, size: nat) {
    forall i | 0 <= i < |rs| :: rs[i].start <= rs[i].end <= size
  }

  // ---- Sorting ------------------------------------------------------------

  predicate Before(a: Range, b: Range) {
    a.start < b.start || (a.start == b.start && a.end <= b.end)
  }

  predicate Sorted(rs: seq<Range>) {
    forall i, j | 0 <= i < j < |rs| :: rs[i].start <= rs[j].start
  }

  function Insert(r: Range, rs: seq<Range>): (out: seq<Range>)
    ensures multiset(out) == multiset(rs) + multiset{r}
  {
    if rs == [] || Before(r, rs[0]) then
      assert [r] + rs == [r] + rs;
      [r] + rs
    else
      assert rs == [rs[0]] + rs[1..];
      [rs[0]] + Insert(r, rs[1..])
  }

  lemma {:induction false} InsertSorted(r: Range, rs: seq<Range>)
    requires Sorted(rs)
    ensures Sorted(Insert(r, rs))
  {
    if rs != [] && !Before(r, rs[0]) {
      InsertSorted(r, rs[1..]);
      var rest := Insert(r, rs[1..]);
      forall j | 0 <= j < |rest| ensures rs[0].start <= rest[j].start {
        assert rest[j] in multiset(rest);
        assert rest[j] == r || rest[j] in rs[1..];
      }
    }
  }

  /** Built-in sorting of the described ranges. */
  method SortRanges(rs: seq<Range>) returns (out: seq<Range>)
    ensures multiset(out) == multiset(rs) && Sorted(out)
  {
    out := [];
    for i := 0 to |rs|
      invariant multiset(out) == multiset(rs[..i]) && Sorted(out)
    {
      InsertSorted(rs[i], out);
      out := Insert(rs[i], out);
      assert rs[..i + 1] == rs[..i] + [rs[i]];
    }
    assert rs[..|rs|] == rs;
  }

  lemma DescribedByMembers(a: seq<Range>, b: seq<Range>, x: int)
    requires multiset(a) == multiset(b)
    ensures Described(a, x) <==> Described(b, x)
  {
    if Described(a, x) { DescribedInto(a, b, x); }
    if Described(b, x) { DescribedInto(b, a, x); }
  }

  lemma DescribedInto(a: seq<Range>, b: seq<Range>, x: int)
    requires multiset(a) == multiset(b) && Described(a, x)
    ensures Described(b, x)
  {
    var i :| 0 <= i < |a| && Within(a[i], x);
    assert a[i] in multiset(a);
    assert a[i] in b;
  }

  lemma {:induction false} FurthestIsMaximum(rs: seq<Range>)
    ensures forall i | 0 <= i < |rs| :: rs[i].end <= FurthestEnd(rs)
    ensures rs != [] ==> exists i | 0 <= i < |rs| :: rs[i].end == FurthestEnd(rs)
  {
    if |rs| == 1 {
      assert rs[0].end == FurthestEnd(rs);
    } else if rs != [] {
      var n := |rs| - 1;
      FurthestIsMaximum(rs[..n]);
      var i :| 0 <= i < n && rs[..n][i].end == FurthestEnd(rs[..n]);
      assert rs[i].end == FurthestEnd(rs[..n]);
      if rs[n].end > FurthestEnd(rs[..n]) {
        assert rs[n].end == FurthestEnd(rs);
      } else {
        assert rs[i].end == FurthestEnd(rs);
      }
      forall j | 0 <= j < |rs| ensures rs[j].end <= FurthestEnd(rs) {
        if j < n { assert rs[..n][j] == rs[j]; }
      }
    }
  }

  lemma FurthestByMembers(a: seq<Range>, b: seq<Range>)
    requires multiset(a) == multiset(b)
    ensures FurthestEnd(a) == FurthestEnd(b)
  {
    FurthestInto(a, b);
    FurthestInto(b, a);
  }

  lemma FurthestInto(a: seq<Range>, b: seq<Range>)
    requires multiset(a) == multiset(b)
    ensures FurthestEnd(a) <= FurthestEnd(b)
  {
    FurthestIsMaximum(a);
    FurthestIsMaximum(b);
    if a != [] {
      var i :| 0 <= i < |a| && a[i].end == FurthestEnd(a);
      assert a[i] in multiset(a);
      assert a[i] in b;
    }
  }

  // ---- Merging ------------------------------------------------------------

  /** Merged ranges ascend with a gap before each next one. */
  predicate Separated(ms: seq<Range>) {
    && (forall i | 0 <= i < |ms| :: ms[i].start <= ms[i].end)
    && (forall i, j | 0 <= i < j < |ms| :: ms[i].end < ms[j].start)
  }

  /** `ms` describes the same bytes as `rs`, and reaches as far. */
  ghost predicate SameBytes(ms: seq<Range>, rs: seq<Range>) {
    && (forall x: int :: Described(ms, x) <==> Described(rs, x))
    && FurthestEnd(ms) == FurthestEnd(rs)
  }

  lemma DescribedAppend(rs: seq<Range>, r: Range, x: int)
    ensures Described(rs + [r], x) <==> Described(rs, x) || Within(r, x)
  {
    var all := rs + [r];
    if Described(all, x) {
      var i :| 0 <= i < |all| && Within(all[i], x);
      if i < |rs| { assert Within(rs[i], x); }
    }
    if Described(rs, x) {
      var i :| 0 <= i < |rs| && Within(rs[i], x);
      assert Within(all[i], x);
    }
    assert all[|rs|] == r;
  }

  lemma AppendRange(ms: seq<Range>, rs: seq<Range>, r: Range)
    requires SameBytes(ms, rs)
    ensures SameBytes(ms + [r], rs + [r])
  {
    hide Described;
    forall x: int ensures Described(ms + [r], x) <==> Described(rs + [r], x) {
      DescribedAppend(ms, r, x);
      DescribedAppend(rs, r, x);
    }
    assert (ms + [r])[..|ms|] == ms && (rs + [r])[..|rs|] == rs;
  }

  function Max(a: nat, b: nat): (m: nat) {
    if a > b then a else b
  }

  /** Widening the last range by a range that touches it adds exactly that range. */
  lemma WidenLast(front: seq<Range>, last: Range, rs: seq<Range>, r: Range)
    requires SameBytes(front + [last], rs)
    requires last.start <= r.start <= last.end && r.start <= r.end
    ensures SameBytes(front + [Range(last.start, Max(last.end, r.end))], rs + [r])
  {
    hide Described;
    var wide := Range(last.start, Max(last.end, r.end));
    forall x: int ensures Described(front + [wide], x) <==> Described(rs + [r], x) {
      DescribedAppend(front, wide, x);
      DescribedAppend(front, last, x);
      DescribedAppend(rs, r, x);
      assert Within(wide, x) <==> Within(last, x) || Within(r, x);
    }
    assert (front + [wide])[..|front|] == front && (front + [last])[..|front|] == front && (rs + [r])[..|rs|] == rs;
  }

  method MergeRanges(sorted: seq<Range>, ghost size: nat) returns (merged: seq<Range>)
    requires Sorted(sorted) && RangesIn(sorted, size)
    ensures Separated(merged) && SameBytes(merged, sorted)
  {
    hide SameBytes;
    merged := [];
    NothingSame();
    for i := 0 to |sorted|
      invariant Separated(merged) && SameBytes(merged, sorted[..i])
      invariant forall k, j | 0 <= k < |merged| && i <= j < |sorted| :: merged[k].start <= sorted[j].start
    {
      var r := sorted[i];
      assert sorted[..i + 1] == sorted[..i] + [r];
      if merged == [] || r.start > merged[|merged| - 1].end {
        AppendRange(merged, sorted[..i], r);
        SeparatedAppend(merged, r);
        merged := merged + [r];
      } else {
        var n := |merged| - 1;
        var last := merged[n];
        assert merged == merged[..n] + [last];
        WidenLast(merged[..n], last, sorted[..i], r);
        merged := merged[..n] + [Range(last.start, Max(last.end, r.end))];
      }
    }
    assert sorted[..|sorted|] == sorted;
  }

  lemma NothingSame()
    ensures SameBytes([], [])
  {
  }

  lemma SeparatedAppend(ms: seq<Range>, r: Range)
    requires Separated(ms) && r.start <= r.end && (ms == [] || r.start > ms[|ms| - 1].end)
    ensures Separated(ms + [r])
  {
  }

  // ---- Sweeping -----------------------------------------------------------

  method HasNonzero(image: Bytes, i: nat, j: nat) returns (found: bool)
    requires j <= |image|
    ensures found <==> exists x | i <= x < j :: image[x] != 0
  {
    var x := i;
    while x < j
      invariant i <= x
      invariant forall y | i <= y < x && y < j :: image[y] == 0
    {
      if image[x] != 0 { return true; }
      x := x + 1;
    }
    return false;
  }

  /** A byte between two merged ranges is described by neither them nor any other. */
  lemma GapIsBare(ms: seq<Range>, k: nat, x: int)
    requires Separated(ms) && k < |ms| && x < ms[k].start && (k > 0 ==> x >= ms[k - 1].end)
    ensures !Described(ms, x)
  {
    forall i | 0 <= i < |ms| ensures !Within(ms[i], x) {
      if i < k - 1 { assert ms[i].end < ms[k - 1].start; }
      if i > k { assert ms[k].end < ms[i].start; }
    }
  }

  lemma LastIsFurthest(ms: seq<Range>)
    requires Separated(ms) && ms != []
    ensures FurthestEnd(ms) == ms[|ms| - 1].end
  {
    FurthestIsMaximum(ms);
    var i :| 0 <= i < |ms| && ms[i].end == FurthestEnd(ms);
  }

  method Sweep(image: Bytes, ms: seq<Range>) returns (ok: bool)
    requires Separated(ms) && forall i | 0 <= i < |ms| :: ms[i].end <= |image|
    ensures ok <==> Covered(image, ms)
  {
    hide Described;
    var cursor: nat := 0;
    for k := 0 to |ms|
      invariant cursor == (if k == 0 then 0 else ms[k - 1].end)
      invariant forall x | 0 <= x < cursor && x < |image| && image[x] != 0 :: Described(ms, x)
    {
      var bad := HasNonzero(image, cursor, ms[k].start);
      if bad {
        var x :| cursor <= x < ms[k].start && image[x] != 0;
        GapIsBare(ms, k, x);
        return false;
      }
      forall x | 0 <= x < ms[k].end && image[x] != 0 ensures Described(ms, x) {
        if x >= cursor { DescribedHere(ms, k, x); }
      }
      cursor := Max(cursor, ms[k].end);
    }
    if ms != [] { LastIsFurthest(ms); }
    return cursor == |image|;
  }

  lemma DescribedHere(ms: seq<Range>, k: nat, x: int)
    requires k < |ms| && Within(ms[k], x)
    ensures Described(ms, x)
  {
  }

  /** Sort, merge and sweep accept exactly the covered files, however the ranges overlap. */
  method CheckCoverage(image: Bytes, described: seq<Range>) returns (ok: bool)
    requires RangesIn(described, |image|)
    ensures ok <==> Covered(image, described)
  {
    hide Described;
    var sorted := SortRanges(described);
    forall i | 0 <= i < |sorted| ensures sorted[i].start <= sorted[i].end <= |image| {
      assert sorted[i] in multiset(sorted);
      assert sorted[i] in described;
    }
    var merged := MergeRanges(sorted, |image|);
    FurthestByMembers(sorted, described);
    FurthestIsMaximum(merged);
    FurthestIsMaximum(sorted);
    forall x: int ensures Described(merged, x) <==> Described(described, x) {
      DescribedByMembers(sorted, described, x);
    }
    ReachesNoFurther(sorted, |image|);
    ok := Sweep(image, merged);
  }

  lemma {:induction false} ReachesNoFurther(rs: seq<Range>, size: nat)
    requires RangesIn(rs, size)
    ensures FurthestEnd(rs) <= size
  {
    if rs != [] { ReachesNoFurther(rs[..|rs| - 1], size); }
  }
}
