/** Merging and aligning the segments of an ELF file: adjust_segments of ldelf/ta_elf.c. */
module Elf {
  const PAGE: nat := 0x1000
  const TWO64: nat := 0x1_0000_0000_0000_0000

  /** The bits of p_flags. */
  datatype Flag = R | W | X

  /** struct segment, with 64-bit fields. */
  datatype Segment = Segment(offset: nat, vaddr: nat, filesz: nat, memsz: nat, flags: set<Flag>, align: nat,
    remapped: bool)

  function Down(v: nat): (r: nat)
    ensures r <= v < r + PAGE && r % PAGE == 0
  {
    v - v % PAGE
  }

  function End(s: Segment): nat {
    s.vaddr + s.memsz
  }

  /** size_t addition. */
  function Add(a: nat, b: nat): nat {
    (a + b) % TWO64
  }

  /** What the sanity check asserts of a segment and the one before it. */
  predicate Sane(segs: seq<Segment>, i: nat)
    requires i < |segs|
  {
    var s := segs[i];
    && s.align >= PAGE && s.vaddr + s.memsz < TWO64 && s.filesz <= s.memsz && s.offset % PAGE == s.vaddr % PAGE
    && (i > 0 ==> s.vaddr >= End(segs[i - 1]) && s.offset >= Add(segs[i - 1].offset, segs[i - 1].filesz))
    && s.align == segs[0].align
  }

  // ---------- what the result means ----------

  predicate Inside(s: Segment, t: Segment) {
    t.vaddr <= s.vaddr && End(s) <= End(t)
  }

  /** The segment starts in the page or overlaps it. */
  predicate Touches(s: Segment, page: nat) {
    s.vaddr < page + PAGE && (page <= s.vaddr || page < End(s))
  }

  /** The page overlaps the segment. */
  predicate Overlaps(t: Segment, page: nat) {
    page % PAGE == 0 && t.vaddr < page + PAGE && page < End(t)
  }

  /** In order, with no page in two of them; all but the first start on a page. */
  ghost predicate Disjoint(out: seq<Segment>) {
    && (forall j :: 0 < j < |out| ==> out[j].vaddr % PAGE == 0)
    && (forall j, l :: 0 <= j < l < |out| ==> End(out[j]) <= out[l].vaddr)
  }

  /** home[i] is the result segment of original segment i. */
  ghost predicate Housed(segs: seq<Segment>, out: seq<Segment>, home: seq<nat>) {
    && |home| == |segs|
    && (forall i :: 0 <= i < |home| ==>
      home[i] < |out| && Inside(segs[i], out[home[i]]) && segs[i].flags <= out[home[i]].flags)
  }

  /** No result segment has a page or a flag that does not come from one of its original segments. */
  ghost predicate Justified(segs: seq<Segment>, out: seq<Segment>, home: seq<nat>) {
    && |home| == |segs|
    && (forall j, page :: 0 <= j < |out| && Overlaps(out[j], page) ==> TouchedBy(segs, home, j, page))
    && (forall j, f :: 0 <= j < |out| && f in out[j].flags ==> GivenBy(segs, home, j, f))
  }

  ghost predicate TouchedBy(segs: seq<Segment>, home: seq<nat>, j: nat, page: nat)
    requires |home| == |segs|
  {
    exists i :: 0 <= i < |segs| && home[i] == j && Touches(segs[i], page)
  }

  ghost predicate GivenBy(segs: seq<Segment>, home: seq<nat>, j: nat, f: Flag)
    requires |home| == |segs|
  {
    exists i :: 0 <= i < |segs| && home[i] == j && f in segs[i].flags
  }

  ghost predicate Adjusted(segs: seq<Segment>, out: seq<Segment>, home: seq<nat>) {
    Disjoint(out) && Housed(segs, out, home) && Justified(segs, out, home)
  }

  /** A page is in at most one result segment. */
  lemma PageOnce(out: seq<Segment>, j: nat, l: nat, page: nat)
    requires Disjoint(out) && j < |out| && l < |out| && Overlaps(out[j], page) && Overlaps(out[l], page)
    ensures j == l
  {
    if j < l {
      Apart(out[j], out[l], page);
    } else if l < j {
      Apart(out[l], out[j], page);
    }
  }

  lemma Apart(t: Segment, u: Segment, page: nat)
    requires End(t) <= u.vaddr && u.vaddr % PAGE == 0
    ensures !(Overlaps(t, page) && Overlaps(u, page))
  {
  }

  /** A segment that is not empty lies in no other result segment than its home. */
  lemma HomeUnique(segs: seq<Segment>, out: seq<Segment>, home: seq<nat>, i: nat, j: nat)
    requires Adjusted(segs, out, home) && i < |segs| && j < |out| && segs[i].memsz > 0 && Inside(segs[i], out[j])
    ensures j == home[i]
  {
    assert segs[i].vaddr < End(segs[i]) && Inside(segs[i], out[home[i]]);
  }

  // ---------- the two cases of the loop ----------

  /** Case 1: the segment starts in the last page of the previous one and is merged into it. */
  function Merged(prev: Segment, s: Segment): Segment
    requires prev.vaddr <= s.vaddr
  {
    prev.(filesz := s.vaddr + s.filesz - prev.vaddr, memsz := s.vaddr + s.memsz - prev.vaddr,
      flags := prev.flags + s.flags)
  }

  /** No overlap: the segment is extended to the start of its page. */
  function Aligned(s: Segment, remapped: bool): Segment {
    var d := s.vaddr - Down(s.vaddr);
    s.(filesz := s.filesz + d, memsz := s.memsz + d, vaddr := Down(s.vaddr), offset := Down(s.offset),
      remapped := s.remapped || remapped)
  }

  lemma MergeKeeps(segs: seq<Segment>, out: seq<Segment>, home: seq<nat>, s: Segment)
    requires Adjusted(segs, out, home) && out != []
    requires var prev := out[|out| - 1]; End(prev) <= s.vaddr && Down(s.vaddr) < End(prev)
    ensures var prev := out[|out| - 1];
      Adjusted(segs + [s], out[..|out| - 1] + [Merged(prev, s)], home + [|out| - 1])
  {
    var last := |out| - 1;
    var prev, m := out[last], Merged(out[last], s);
    var out', segs', home' := out[..last] + [m], segs + [s], home + [last];
    assert Housed(segs', out', home') by {
      assert Inside(s, m) && prev.flags <= m.flags && End(prev) <= End(m);
    }
    forall j, page | 0 <= j < |out'| && Overlaps(out'[j], page)
      ensures TouchedBy(segs', home', j, page)
    {
      if j < last || Overlaps(prev, page) {
        OldTouch(segs, out, home, s, last, j, page);
      } else {
        assert Touches(s, page) by { GapTouched(prev, s, page); }
        assert home'[|segs|] == j && segs'[|segs|] == s;
      }
    }
    forall j, f | 0 <= j < |out'| && f in out'[j].flags
      ensures GivenBy(segs', home', j, f)
    {
      if f in out[j].flags {
        OldFlag(segs, out, home, s, last, j, f);
      } else {
        assert home'[|segs|] == j && f in segs'[|segs|].flags;
      }
    }
  }

  /** A page of the merged segment that the previous one does not reach belongs to the new one. */
  lemma GapTouched(prev: Segment, s: Segment, page: nat)
    requires End(prev) <= s.vaddr && Down(s.vaddr) < End(prev) && Overlaps(Merged(prev, s), page) &&
      !Overlaps(prev, page)
    ensures Touches(s, page)
  {
    assert page >= End(prev);
    assert page > Down(s.vaddr);
  }

  lemma OldTouch(segs: seq<Segment>, out: seq<Segment>, home: seq<nat>, s: Segment, h: nat, j: nat, page: nat)
    requires Justified(segs, out, home) && j < |out| && Overlaps(out[j], page)
    ensures TouchedBy(segs + [s], home + [h], j, page)
  {
    assert TouchedBy(segs, home, j, page);
    var i :| 0 <= i < |segs| && home[i] == j && Touches(segs[i], page);
    assert (home + [h])[i] == j && (segs + [s])[i] == segs[i];
  }

  lemma OldFlag(segs: seq<Segment>, out: seq<Segment>, home: seq<nat>, s: Segment, h: nat, j: nat, f: Flag)
    requires Justified(segs, out, home) && j < |out| && f in out[j].flags
    ensures GivenBy(segs + [s], home + [h], j, f)
  {
    assert GivenBy(segs, home, j, f);
    var i :| 0 <= i < |segs| && home[i] == j && f in segs[i].flags;
    assert (home + [h])[i] == j && (segs + [s])[i] == segs[i];
  }

  lemma AlignKeeps(segs: seq<Segment>, out: seq<Segment>, home: seq<nat>, s: Segment, remapped: bool)
    requires Adjusted(segs, out, home) && out != [] && forall j :: 0 <= j < |out| ==> End(out[j]) <= End(out[|out| - 1])
    requires End(out[|out| - 1]) <= Down(s.vaddr)
    ensures Adjusted(segs + [s], out + [Aligned(s, remapped)], home + [|out|])
  {
    var n, a := |out|, Aligned(s, remapped);
    var out', segs', home' := out + [a], segs + [s], home + [n];
    forall j, page | 0 <= j < |out'| && Overlaps(out'[j], page)
      ensures TouchedBy(segs', home', j, page)
    {
      if j < n {
        OldTouch(segs, out, home, s, n, j, page);
      } else {
        assert Touches(s, page);
        assert home'[|segs|] == j && segs'[|segs|] == s;
      }
    }
    forall j, f | 0 <= j < |out'| && f in out'[j].flags
      ensures GivenBy(segs', home', j, f)
    {
      if j < n {
        OldFlag(segs, out, home, s, n, j, f);
      } else {
        assert home'[|segs|] == j && f in segs'[|segs|].flags;
      }
    }
  }

  lemma OneAdjusted(s: Segment)
    ensures Adjusted([s], [s], [0])
  {
    forall page | Overlaps(s, page)
      ensures TouchedBy([s], [0], 0, page)
    {
      assert [0][0] == 0 && Touches([s][0], page);
    }
    forall f | f in s.flags
      ensures GivenBy([s], [0], 0, f)
    {
      assert [0][0] == 0 && f in [s][0].flags;
    }
  }

  // ---------- which file bytes a result segment maps ----------

  /** Segments share a result segment exactly if the later one starts in the last page of the one before. */
  ghost predicate HomesOk(segs: seq<Segment>, home: seq<nat>) {
    && |home| == |segs| > 0 && home[0] == 0
    && forall i :: 0 < i < |segs| ==>
      home[i] == if Down(segs[i].vaddr) < End(segs[i - 1]) then home[i - 1] else home[i - 1] + 1
  }

  /** Result segment j starts at the page of s, its first one, and is mapped from the page of its offset. */
  ghost predicate Starts(s: Segment, out: seq<Segment>, j: nat)
    requires j < |out| && s.align > 0
  {
    var t := out[j];
    && t.vaddr == (if j == 0 then s.vaddr else s.vaddr - s.vaddr % 0x1000)
    && t.offset == (if j == 0 then s.offset else s.offset - s.offset % 0x1000)
    && t.align == s.align
    && (t.remapped <==> j > 0 && MappedTwice(out[j - 1], s))
  }

  /** The page of the file where s starts is one that u maps as well, and s does not start on a page. */
  predicate MappedTwice(u: Segment, s: Segment)
    requires s.align > 0
  {
    s.offset % s.align != 0 && s.offset - s.offset % 0x1000 < (u.offset + u.filesz) % 0x1_0000_0000_0000_0000
  }

  /** It ends where s does, its last one, in memory and in the file. */
  predicate Ends(s: Segment, t: Segment) {
    t.vaddr + t.memsz == s.vaddr + s.memsz && t.vaddr + t.filesz == s.vaddr + s.filesz
  }

  ghost predicate PlacedAt(segs: seq<Segment>, out: seq<Segment>, home: seq<nat>, i: nat)
    requires i < |segs| == |home| && home[i] < |out| && segs[i].align > 0
  {
    && (i == 0 || home[i - 1] != home[i] ==> Starts(segs[i], out, home[i]))
    && (i + 1 == |segs| || home[i + 1] != home[i] ==> Ends(segs[i], out[home[i]]))
  }

  /** The result segments, by the first and the last of the original segments that each stands for. */
  ghost predicate Placed(segs: seq<Segment>, out: seq<Segment>, home: seq<nat>) {
    && HomesOk(segs, home) && |out| == home[|home| - 1] + 1
    && forall i :: 0 <= i < |segs| ==> home[i] < |out| && segs[i].align > 0 && PlacedAt(segs, out, home, i)
  }

  lemma OnePlaced(s: Segment)
    requires s.align > 0 && !s.remapped
    ensures Placed([s], [s], [0])
  {
    assert PlacedAt([s], [s], [0], 0);
  }

  lemma HomesNext(segs: seq<Segment>, home: seq<nat>, s: Segment, h: nat)
    requires HomesOk(segs, home)
    requires h == home[|home| - 1] + if Down(s.vaddr) < End(segs[|segs| - 1]) then 0 else 1
    ensures HomesOk(segs + [s], home + [h])
  {
    var segs', home' := segs + [s], home + [h];
    forall i | 0 < i < |segs'|
      ensures home'[i] == if Down(segs'[i].vaddr) < End(segs'[i - 1]) then home'[i - 1] else home'[i - 1] + 1
    {
    }
  }

  /** Up to position n the result segments have not moved. */
  lemma StartsSame(s: Segment, out: seq<Segment>, out': seq<Segment>, j: nat)
    requires j < |out| && j < |out'| && s.align > 0 && Starts(s, out, j) && (j > 0 ==> out'[j - 1] == out[j - 1])
    requires out'[j] == out[j].(filesz := out'[j].filesz, memsz := out'[j].memsz, flags := out'[j].flags)
    ensures Starts(s, out', j)
  {
  }

  /** One more segment: what was placed stays, if only the last result segment may have grown. */
  lemma PlacedStays(segs: seq<Segment>, out: seq<Segment>, home: seq<nat>, s: Segment, h: nat, out': seq<Segment>,
                    i: nat)
    requires Placed(segs, out, home) && i < |segs| && |out| <= |out'| && h == |out'| - 1
    requires forall j :: 0 <= j < |out| && j != h ==> out'[j] == out[j]
    requires h < |out| ==> out'[h] == out[h].(filesz := out'[h].filesz, memsz := out'[h].memsz, flags := out'[h].flags)
    ensures home[i] < |out'| && PlacedAt(segs + [s], out', home + [h], i)
  {
    var segs', home' := segs + [s], home + [h];
    assert PlacedAt(segs, out, home, i);
    if i == 0 || home'[i - 1] != home'[i] {
      StartsSame(segs[i], out, out', home[i]);
    }
  }

  lemma MergePlaces(segs: seq<Segment>, out: seq<Segment>, home: seq<nat>, s: Segment)
    requires Placed(segs, out, home) && s.align > 0 && out[|out| - 1].vaddr <= s.vaddr
    requires Down(s.vaddr) < End(segs[|segs| - 1])
    ensures Placed(segs + [s], out[..|out| - 1] + [Merged(out[|out| - 1], s)], home + [|out| - 1])
  {
    var h := |out| - 1;
    var out', segs', home' := out[..h] + [Merged(out[h], s)], segs + [s], home + [h];
    HomesNext(segs, home, s, h);
    forall i | 0 <= i < |segs'|
      ensures home'[i] < |out'| && segs'[i].align > 0 && PlacedAt(segs', out', home', i)
    {
      if i < |segs| {
        PlacedStays(segs, out, home, s, h, out', i);
      } else {
        assert home'[i - 1] == home'[i] && Ends(s, out'[h]);
      }
    }
  }

  lemma AlignPlaces(segs: seq<Segment>, out: seq<Segment>, home: seq<nat>, s: Segment, remapped: bool)
    requires Placed(segs, out, home) && s.align > 0 && !s.remapped
    requires End(segs[|segs| - 1]) <= Down(s.vaddr) && (remapped <==> ReadTwice(out[|out| - 1], s))
    ensures Placed(segs + [s], out + [Aligned(s, remapped)], home + [|out|])
  {
    var h := |out|;
    var out', segs', home' := out + [Aligned(s, remapped)], segs + [s], home + [h];
    HomesNext(segs, home, s, h);
    forall i | 0 <= i < |segs'|
      ensures home'[i] < |out'| && segs'[i].align > 0 && PlacedAt(segs', out', home', i)
    {
      if i < |segs| {
        PlacedStays(segs, out, home, s, h, out', i);
      } else {
        AlignedStarts(out[h - 1], s, remapped);
        assert out'[h - 1] == out[h - 1] && out'[h] == Aligned(s, remapped);
      }
    }
  }

  lemma AlignedStarts(u: Segment, s: Segment, remapped: bool)
    requires s.align > 0 && !s.remapped && (remapped <==> ReadTwice(u, s))
    ensures Starts(s, [u, Aligned(s, remapped)], 1) && Ends(s, Aligned(s, remapped))
  {
  }

  /** The address at which a byte of the file is mapped, less its offset. */
  function Shift(s: Segment): int {
    s.vaddr - s.offset
  }

  ghost predicate Congruent(segs: seq<Segment>) {
    forall i :: 0 <= i < |segs| ==> segs[i].offset % PAGE == segs[i].vaddr % PAGE
  }

  /** Every segment's bytes are mapped from their own place in the file. */
  ghost predicate FilePlacesKept(segs: seq<Segment>, out: seq<Segment>, home: seq<nat>) {
    |home| == |segs| && forall i :: 0 <= i < |segs| ==> home[i] < |out| && Shift(out[home[i]]) == Shift(segs[i])
  }

  /** Segments that are merged are as far apart in the file as in memory. */
  ghost predicate SameDistance(segs: seq<Segment>) {
    forall i :: 0 < i < |segs| && Down(segs[i].vaddr) < End(segs[i - 1]) ==>
      segs[i].vaddr - segs[i - 1].vaddr == segs[i].offset - segs[i - 1].offset
  }

  /** Starting on a page moves address and offset alike. */
  lemma StartShift(s: Segment, out: seq<Segment>, j: nat)
    requires j < |out| && s.align > 0 && Starts(s, out, j) && s.offset % PAGE == s.vaddr % PAGE
    ensures Shift(out[j]) == Shift(s)
  {
  }

  lemma {:induction false} ShiftsAlong(segs: seq<Segment>, out: seq<Segment>, home: seq<nat>, i: nat)
    requires Placed(segs, out, home) && Congruent(segs) && SameDistance(segs) && i < |segs|
    ensures Shift(out[home[i]]) == Shift(segs[i])
  {
    assert PlacedAt(segs, out, home, i);
    if i == 0 || home[i - 1] != home[i] {
      StartShift(segs[i], out, home[i]);
    } else {
      ShiftsAlong(segs, out, home, i - 1);
    }
  }

  /**
   The asserts make merged segments agree only modulo the alignment. Their bytes are mapped
   from the right place in the file exactly if they are as far apart there as in memory.
  */
  lemma FilePlaces(segs: seq<Segment>, out: seq<Segment>, home: seq<nat>)
    requires Placed(segs, out, home) && forall i :: 0 <= i < |segs| ==> Sane(segs, i)
    ensures FilePlacesKept(segs, out, home) <==> SameDistance(segs)
  {
    assert Congruent(segs) by {
      forall i | 0 <= i < |segs|
        ensures segs[i].offset % PAGE == segs[i].vaddr % PAGE
      {
        assert Sane(segs, i);
      }
    }
    if SameDistance(segs) {
      forall i | 0 <= i < |segs|
        ensures home[i] < |out| && Shift(out[home[i]]) == Shift(segs[i])
      {
        ShiftsAlong(segs, out, home, i);
      }
    }
    if FilePlacesKept(segs, out, home) {
      forall i | 0 < i < |segs| && Down(segs[i].vaddr) < End(segs[i - 1])
        ensures segs[i].vaddr - segs[i - 1].vaddr == segs[i].offset - segs[i - 1].offset
      {
        assert home[i] == home[i - 1];
        assert Shift(out[home[i]]) == Shift(segs[i]) && Shift(out[home[i - 1]]) == Shift(segs[i - 1]);
      }
    }
  }

  // ---------- the procedure ----------

  /** The conditions of the asserts in the loop, for a segment s behind prev. */
  predicate StepAsserts(prev: Segment, s: Segment)
    requires s.align > 0
  {
    if Down(s.vaddr) < End(prev) then s.vaddr % s.align == s.offset % s.align && prev.memsz == prev.filesz
    else ReadTwice(prev, s) ==> W in s.flags
  }

  /** Case 2: the same page of the file is mapped at two addresses. */
  predicate ReadTwice(prev: Segment, s: Segment)
    requires s.align > 0
  {
    s.offset % s.align != 0 && Down(s.offset) < Add(prev.offset, prev.filesz)
  }

  /** Two segments that pass every assert and are merged, though one more page lies between them in the file. */
  function FarApart(): seq<Segment> {
    [Segment(0, 0, 0x100, 0x100, {R}, PAGE, false), Segment(0x1150, 0x150, 0x10, 0x10, {R}, PAGE, false)]
  }

  lemma MergedElsewhere() returns (segs: seq<Segment>, out: seq<Segment>, home: seq<nat>)
    ensures segs == FarApart() && (forall i :: 0 <= i < |segs| ==> Sane(segs, i)) && StepAsserts(segs[0], segs[1])
    ensures Placed(segs, out, home) && out == [Merged(segs[0], segs[1])] && !FilePlacesKept(segs, out, home)
  {
    segs := FarApart();
    OnePlaced(segs[0]);
    MergePlaces([segs[0]], [segs[0]], [0], segs[1]);
    assert [segs[0]] + [segs[1]] == segs;
    out, home := [Merged(segs[0], segs[1])], [0, 0];
    assert [segs[0]][..0] + out == out && [0] + [0] == home;
    FilePlaces(segs, out, home);
    assert !SameDistance(segs) by {
      assert Down(segs[1].vaddr) < End(segs[0]);
    }
  }

  /** The sanity check. */
  method Check(segs: seq<Segment>) returns (ok: bool)
    ensures ok <==> forall i :: 0 <= i < |segs| ==> Sane(segs, i)
  {
    for i := 0 to |segs|
      invariant forall j :: 0 <= j < i ==> Sane(segs, j)
    {
      if !Sane(segs, i) {
        return false;
      }
    }
    ok := true;
  }

  /** No segment is marked remapped without being writeable. */
  predicate RemapOk(out: seq<Segment>) {
    forall j :: 0 <= j < |out| ==> !out[j].remapped || W in out[j].flags
  }

  /** The first i elements of the list stand for the first k original segments, the others are untouched. */
  ghost predicate LoopOk(segs: seq<Segment>, k: nat, list: seq<Segment>, i: nat, home: seq<nat>) {
    && 1 <= i <= |list| && 1 <= k <= |segs| && list[i..] == segs[k..]
    && Adjusted(segs[..k], list[..i], home) && Placed(segs[..k], list[..i], home)
    && End(list[i - 1]) == End(segs[k - 1]) && RemapOk(list[..i])
  }

  lemma MergeStep(segs: seq<Segment>, k: nat, list: seq<Segment>, i: nat, home: seq<nat>)
    requires LoopOk(segs, k, list, i, home) && i < |list| && Down(list[i].vaddr) < End(list[i - 1]) &&
      End(list[i - 1]) <= list[i].vaddr
    requires k < |segs| && list[i] == segs[k] && segs[k].align > 0
    ensures LoopOk(segs, k + 1, list[..i - 1] + [Merged(list[i - 1], list[i])] + list[i + 1..], i, home + [i - 1])
  {
    Heads(segs, k, list, i);
    MergeKeeps(segs[..k], list[..i], home, list[i]);
    MergePlaces(segs[..k], list[..i], home, list[i]);
    MergeList(list, i, Merged(list[i - 1], list[i]));
  }

  lemma AlignBoth(segs: seq<Segment>, out: seq<Segment>, home: seq<nat>, s: Segment, remapped: bool)
    requires Adjusted(segs, out, home) && Placed(segs, out, home) && RemapOk(out)
    requires End(out[|out| - 1]) == End(segs[|segs| - 1]) <= Down(s.vaddr)
    requires s.align > 0 && !s.remapped && (remapped <==> ReadTwice(out[|out| - 1], s)) && (remapped ==> W in s.flags)
    ensures Adjusted(segs + [s], out + [Aligned(s, remapped)], home + [|out|])
    ensures Placed(segs + [s], out + [Aligned(s, remapped)], home + [|out|]) && RemapOk(out + [Aligned(s, remapped)])
  {
    EndsLast(out);
    AlignKeeps(segs, out, home, s, remapped);
    AlignPlaces(segs, out, home, s, remapped);
  }

  lemma EndsLast(out: seq<Segment>)
    requires Disjoint(out) && out != []
    ensures forall j :: 0 <= j < |out| ==> End(out[j]) <= End(out[|out| - 1])
  {
  }

  lemma AlignStep(segs: seq<Segment>, k: nat, list: seq<Segment>, i: nat, home: seq<nat>, remapped: bool)
    requires LoopOk(segs, k, list, i, home) && i < |list| && End(list[i - 1]) <= Down(list[i].vaddr)
    requires k < |segs| && list[i] == segs[k] && !list[i].remapped && (remapped ==> W in list[i].flags)
    requires segs[k].align > 0 && (remapped <==> ReadTwice(list[i - 1], list[i]))
    ensures LoopOk(segs, k + 1, list[..i] + [Aligned(list[i], remapped)] + list[i + 1..], i + 1, home + [i])
  {
    Heads(segs, k, list, i);
    AlignBoth(segs[..k], list[..i], home, segs[k], remapped);
    AlignList(list, i, Aligned(list[i], remapped));
  }

  /**
   adjust_segments; ok tells that all asserts hold. The alignment is taken to be a power of
   two, so that masking with align - 1 is the remainder; no segment is marked remapped yet.
   */
  method AdjustSegments(segs: seq<Segment>) returns (ok: bool, list: seq<Segment>)
    requires forall i :: 0 <= i < |segs| ==> !segs[i].remapped
    ensures ok ==> (forall i :: 0 <= i < |segs| ==> Sane(segs, i)) && RemapOk(list)
    ensures ok ==> exists home :: Adjusted(segs, list, home) && (segs == [] || Placed(segs, list, home))
  {
    list := segs;
    ok := Check(segs);
    if !ok {
      return;
    }
    if segs == [] {
      assert Adjusted([], [], []);
      return;
    }
    OneAdjusted(segs[0]);
    assert Sane(segs, 0);
    OnePlaced(segs[0]);
    ghost var home: seq<nat> := [0];
    var i := 1;
    ghost var k := 1;
    assert segs[..1] == [segs[0]];
    while i < |list|
      invariant LoopOk(segs, k, list, i, home)
      decreases |list| - i
    {
      var prev, s := list[i - 1], list[i];
      Heads(segs, k, list, i);
      assert Sane(segs, k);
      if !StepAsserts(prev, s) {
        return false, list;
      }
      if Down(s.vaddr) < End(prev) {
        MergeStep(segs, k, list, i, home);
        home := home + [i - 1];
        list := list[..i - 1] + [Merged(prev, s)] + list[i + 1..];
      } else {
        AlignStep(segs, k, list, i, home, ReadTwice(prev, s));
        home := home + [i];
        list := list[..i] + [Aligned(s, ReadTwice(prev, s))] + list[i + 1..];
        i := i + 1;
      }
      k := k + 1;
    }
    AllOf(segs, k, list, i);
  }

  lemma Heads(segs: seq<Segment>, k: nat, list: seq<Segment>, i: nat)
    requires i < |list| && k <= |segs| && list[i..] == segs[k..]
    ensures k < |segs| && list[i] == segs[k] && list[i + 1..] == segs[k + 1..] && segs[..k + 1] == segs[..k] + [segs[k]]
  {
    assert list[i..][0] == segs[k..][0];
    assert list[i..][1..] == list[i + 1..] && segs[k..][1..] == segs[k + 1..];
  }

  lemma MergeList(list: seq<Segment>, i: nat, m: Segment)
    requires 1 <= i < |list|
    ensures var l := list[..i - 1] + [m] + list[i + 1..];
      l[i..] == list[i + 1..] && l[..i] == list[..i][..i - 1] + [m] && l[i - 1] == m
  {
  }

  lemma AlignList(list: seq<Segment>, i: nat, a: Segment)
    requires i < |list|
    ensures var l := list[..i] + [a] + list[i + 1..];
      l[i + 1..] == list[i + 1..] && l[..i + 1] == list[..i] + [a] && l[i] == a
  {
  }

  lemma AllOf(segs: seq<Segment>, k: nat, list: seq<Segment>, i: nat)
    requires i == |list| && k <= |segs| && list[i..] == segs[k..]
    ensures segs[..k] == segs && list[..i] == list
  {
    assert |segs[k..]| == 0;
  }
}
