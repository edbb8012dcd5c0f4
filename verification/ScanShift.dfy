/** When the undefined shift by 64 (core/memblk.c:106) leaves the search first fit. */
module ScanShift {
  import opened Bits
  import opened Options
  import opened Scan

  /** The undefined shift delivers no bit at the positions. */
  predicate EdgesClear(shift: seq<Word>, lo: nat, hi: nat) {
    forall p :: lo <= p < hi ==> !EdgeBit(shift, p)
  }

  /** The iterations from `from` on take positions `s .. s + c` for clear. */
  predicate SeenClear(bitmap: seq<Word>, shift: seq<Word>, len: nat, from: nat, s: nat, c: nat)
    requires len < |bitmap| && from <= s
  {
    ClearRun(SeenFrom(bitmap, shift, len, from), s - from, c)
  }

  // ---------------------------------------------------------------- from a run to what is seen of it

  lemma SeenRunIsFree(bits: seq<bool>, seen: seq<bool>, t: nat, c: nat)
    requires t + c <= |bits| <= |seen| && forall k :: 0 <= k < |bits| ==> bits[k] ==> seen[k]
    ensures ClearRun(seen, t, c) ==> ClearRun(bits, t, c)
  {
  }

  /** The first fit is answered with if and only if the loop sees all of it. */
  lemma FirstFitSeen(bitmap: seq<Word>, shift: seq<Word>, len: nat, c: nat)
    requires len < |bitmap| && c > 0 && FirstFit(BitsOf(bitmap, 64 * len), c).Some?
    ensures var s := FirstFit(BitsOf(bitmap, 64 * len), c).value;
            Search(bitmap, shift, len, c) == Some(s) <==> SeenClear(bitmap, shift, len, 0, s, c)
  {
    var bits, seen := BitsOf(bitmap, 64 * len), Seen(bitmap, shift, len);
    var s := FirstFit(bits, c).value;
    SeenBits(bitmap, shift, len, 0);
    if ClearRun(seen, s, c) {
      forall t: nat | t < s
        ensures !ClearRun(seen, t, c)
      {
        SeenRunIsFree(bits, seen, t, c);
      }
      FirstFitIs(seen, c, Some(s));
    }
  }

  // ---------------------------------------------------------------- one iteration

  // What an iteration at `pos` makes of the positions it moves over.
  lemma SegmentBits(bitmap: seq<Word>, shift: seq<Word>, pos: nat, p: nat)
    requires pos / 64 + 1 < |bitmap| && pos <= p < NextPos(bitmap, shift, pos)
    ensures pos < NextPos(bitmap, shift, pos) <= pos + 64
    ensures p < pos + ClearAt(bitmap, shift, pos) <==> !Used(bitmap, p) && (pos % 64 == 0 ==> !EdgeBit(shift, p))
  {
    Segment(bitmap, shift, pos);
    WordAtBits(bitmap, shift, pos, p - pos);
  }

  lemma SegmentSeen(bitmap: seq<Word>, shift: seq<Word>, len: nat, pos: nat, p: nat)
    requires len < |bitmap| && pos < 64 * len && pos <= p
    ensures var seen, next := SeenFrom(bitmap, shift, len, pos), NextPos(bitmap, shift, pos);
            && next <= pos + |seen| && seen[next - pos..] == SeenFrom(bitmap, shift, len, next)
            && (p < next ==> seen[p - pos] == (p >= pos + ClearAt(bitmap, shift, pos)))
            && (next <= p < pos + |seen| ==> seen[p - pos] == SeenFrom(bitmap, shift, len, next)[p - next])
  {
    Segment(bitmap, shift, pos);
  }

  // A segment that is seen clear to its end hands the run on.
  lemma SeenThrough(bitmap: seq<Word>, shift: seq<Word>, len: nat, pos: nat, c: nat)
    requires len < |bitmap| && pos < 64 * len
    requires var next := NextPos(bitmap, shift, pos); pos + ClearAt(bitmap, shift, pos) == next <= pos + c
    ensures var next := NextPos(bitmap, shift, pos);
            pos < next && next % 64 == 0
            && (SeenClear(bitmap, shift, len, pos, pos, c)
                <==> SeenClear(bitmap, shift, len, next, next, pos + c - next))
  {
    Segment(bitmap, shift, pos);
    var next := NextPos(bitmap, shift, pos);
    var seen, rest := SeenFrom(bitmap, shift, len, pos), SeenFrom(bitmap, shift, len, next);
    assert forall k :: 0 <= k < next - pos ==> !seen[k];
    assert forall k :: next - pos <= k < |seen| ==> seen[k] == rest[k - (next - pos)];
    if ClearRun(seen, 0, c) {
      assert forall k :: 0 <= k < pos + c - next ==> rest[k] == seen[next - pos + k];
    }
  }

  // A segment that ends in a set bit decides about a run that it covers or that begins in it.
  lemma SeenHere(bitmap: seq<Word>, shift: seq<Word>, len: nat, pos: nat, c: nat)
    requires len < |bitmap| && pos < 64 * len
    requires var next := NextPos(bitmap, shift, pos); pos + ClearAt(bitmap, shift, pos) < next || pos + c <= next
    ensures SeenClear(bitmap, shift, len, pos, pos, c) <==> c <= ClearAt(bitmap, shift, pos)
  {
    Segment(bitmap, shift, pos);
    var seen, z, next := SeenFrom(bitmap, shift, len, pos), ClearAt(bitmap, shift, pos), NextPos(bitmap, shift, pos);
    assert forall k :: 0 <= k < next - pos ==> seen[k] == (k >= z);
    if pos + z < next && c > z { assert seen[z]; }
  }

  // ---------------------------------------------------------------- a run from a word boundary on

  /** A free run from a word boundary on, where an iteration starts, is seen in full if and
      only if the shift delivers no bit at any of its positions. */
  lemma {:induction false} AlignedSeen(bitmap: seq<Word>, shift: seq<Word>, len: nat, s: nat, c: nat)
    requires len < |bitmap| && s % 64 == 0 && s + c <= 64 * len && Free(bitmap, s, c)
    ensures SeenClear(bitmap, shift, len, s, s, c) <==> EdgesClear(shift, s, s + c)
    decreases c
  {
    if c > 0 {
      var z, next := ClearAt(bitmap, shift, s), NextPos(bitmap, shift, s);
      Segment(bitmap, shift, s);
      forall p | s <= p < next && p < s + c
        ensures p < s + z <==> !EdgeBit(shift, p)
      {
        SegmentBits(bitmap, shift, s, p);
      }
      if s + z == next && next <= s + c {
        SeenThrough(bitmap, shift, len, s, c);
        AlignedSeen(bitmap, shift, len, next, s + c - next);
      } else {
        SeenHere(bitmap, shift, len, s, c);
        if z < c { assert EdgeBit(shift, s + z); }
      }
    }
  }

  // A window inside a word that shows no set bit hands the run on to the next boundary.
  lemma InnerFree(bitmap: seq<Word>, shift: seq<Word>, len: nat, s: nat, c: nat)
    requires len < |bitmap| && s % 64 != 0 && s + c <= 64 * len && c > 0 && Free(bitmap, s, c)
    requires Free(bitmap, s, 64)
    ensures SeenClear(bitmap, shift, len, s, s, c) <==> EdgesClear(shift, (s / 64 + 1) * 64, s + c)
  {
    var b := (s / 64 + 1) * 64;
    forall j | 0 <= j < 64
      ensures !Bit(WordAt(bitmap, shift, s), j)
    {
      WordAtBits(bitmap, shift, s, j);
    }
    AllClear(WordAt(bitmap, shift, s));
    if b <= s + c {
      SeenThrough(bitmap, shift, len, s, c);
      AlignedSeen(bitmap, shift, len, b, s + c - b);
    } else {
      SeenHere(bitmap, shift, len, s, c);
    }
  }

  // One that shows a set bit shows the whole run.
  lemma InnerShown(bitmap: seq<Word>, shift: seq<Word>, len: nat, s: nat, c: nat)
    requires len < |bitmap| && s % 64 != 0 && s + c <= 64 * len && c > 0 && Free(bitmap, s, c)
    requires !Free(bitmap, s, 64)
    ensures SeenClear(bitmap, shift, len, s, s, c)
  {
    var word, z := WordAt(bitmap, shift, s), ClearAt(bitmap, shift, s);
    var p :| s <= p < s + 64 && Used(bitmap, p);
    WordAtBits(bitmap, shift, s, p - s);
    WordAtBits(bitmap, shift, s, 0);
    NeitherExtreme(word, p - s);
    MixedWord(word);
    WordAtBits(bitmap, shift, s, z);
    assert Used(bitmap, s + z);
    SeenHere(bitmap, shift, len, s, c);
  }

  lemma NeitherExtreme(word: Word, j: nat)
    requires j < 64 && Bit(word, j) && !Bit(word, 0)
    ensures word != 0 && word != ONES
  {
    ZeroBits(j);
    AllOnes(0);
  }

  /** A free run from inside a word on, where an iteration starts: the first window is read
      right, and it is enough if it also shows the end of the run; otherwise what follows the
      next boundary decides. */
  lemma InnerSeen(bitmap: seq<Word>, shift: seq<Word>, len: nat, s: nat, c: nat)
    requires len < |bitmap| && s % 64 != 0 && s + c <= 64 * len && c > 0 && Free(bitmap, s, c)
    ensures SeenClear(bitmap, shift, len, s, s, c)
       <==> !Free(bitmap, s, 64) || EdgesClear(shift, (s / 64 + 1) * 64, s + c)
  {
    if Free(bitmap, s, 64) { InnerFree(bitmap, shift, len, s, c); } else { InnerShown(bitmap, shift, len, s, c); }
  }

  lemma AllClear(w: Word)
    requires forall j :: 0 <= j < 64 ==> !Bit(w, j)
    ensures w == 0
  {
    if w != 0 {
      TwoTo64();
      LowestBitBelow(w, 64);
    }
  }

  // ---------------------------------------------------------------- where iterations start

  lemma OffBoundary(from: nat, s: nat)
    requires from % 64 == 0 && from < s < from + 64
    ensures s % 64 != 0
  {
  }

  // Inside a segment a free position behind a used one is no word boundary and is seen set.
  lemma SegmentInterior(bitmap: seq<Word>, shift: seq<Word>, from: nat, s: nat)
    requires from / 64 + 1 < |bitmap| && from < s < NextPos(bitmap, shift, from)
    requires s < 64 * |bitmap| && Used(bitmap, s - 1) && !Used(bitmap, s)
    ensures s % 64 != 0 && s >= from + ClearAt(bitmap, shift, from)
  {
    SegmentBits(bitmap, shift, from, s - 1);
    SegmentBits(bitmap, shift, from, s);
    if from % 64 == 0 { OffBoundary(from, s); }
  }

  lemma Later(seen: seq<bool>, rest: seq<bool>, a: nat, b: nat)
    requires a <= b <= |seen| && seen[a..] == rest
    ensures rest[b - a..] == seen[b..]
  {
  }

  /** An iteration starts at `s`: from there on the bits are seen as from the beginning. */
  predicate StartsAt(bitmap: seq<Word>, shift: seq<Word>, len: nat, from: nat, s: nat)
    requires len < |bitmap| && from <= s
  {
    var seen := SeenFrom(bitmap, shift, len, from);
    s - from <= |seen| && seen[s - from..] == SeenFrom(bitmap, shift, len, s)
  }

  // It does so when one starts there after the first.
  lemma StartsLater(bitmap: seq<Word>, shift: seq<Word>, len: nat, from: nat, s: nat)
    requires len < |bitmap| && from < 64 * len
    requires NextPos(bitmap, shift, from) <= s && StartsAt(bitmap, shift, len, NextPos(bitmap, shift, from), s)
    ensures StartsAt(bitmap, shift, len, from, s)
  {
    var next := NextPos(bitmap, shift, from);
    SegmentSeen(bitmap, shift, len, from, from);
    Segment(bitmap, shift, from);
    var seen, rest := SeenFrom(bitmap, shift, len, from), SeenFrom(bitmap, shift, len, next);
    assert |seen| == next - from + |rest|;
    Later(seen, rest, next - from, s - from);
  }

  // Whether `s` is seen clear does not depend on the iterations before it.
  lemma SeenLater(bitmap: seq<Word>, shift: seq<Word>, len: nat, from: nat, s: nat)
    requires len < |bitmap| && from < 64 * len && NextPos(bitmap, shift, from) <= s
    ensures SeenClear(bitmap, shift, len, from, s, 1)
            <==> SeenClear(bitmap, shift, len, NextPos(bitmap, shift, from), s, 1)
  {
    SegmentSeen(bitmap, shift, len, from, s);
    Segment(bitmap, shift, from);
  }

  /** An iteration starts at a free position behind a used one, if it is a word boundary or is
      itself seen clear. */
  lemma {:induction false} Reached(bitmap: seq<Word>, shift: seq<Word>, len: nat, from: nat, s: nat)
    requires len < |bitmap| && from <= s < 64 * len && !Used(bitmap, s) && (s == from || Used(bitmap, s - 1))
    requires s % 64 == 0 || SeenClear(bitmap, shift, len, from, s, 1)
    ensures StartsAt(bitmap, shift, len, from, s)
    decreases s - from
  {
    if from < s {
      var next := NextPos(bitmap, shift, from);
      Segment(bitmap, shift, from);
      if s < next {
        SegmentInterior(bitmap, shift, from, s);
        SegmentSeen(bitmap, shift, len, from, s);
      } else {
        SeenLater(bitmap, shift, len, from, s);
        Reached(bitmap, shift, len, next, s);
        StartsLater(bitmap, shift, len, from, s);
      }
    }
  }

  // ---------------------------------------------------------------- the first position of a run inside a word

  /** Position `p` shows as set in the word that an iteration at the boundary of its word reads. */
  predicate ShowsSet(bitmap: seq<Word>, shift: seq<Word>, p: nat)
    requires p < 64 * |bitmap|
  {
    Used(bitmap, p) || EdgeBit(shift, p)
  }

  /** In that word, some position shows clear behind one that shows set, both before `s`. */
  predicate Interrupted(bitmap: seq<Word>, shift: seq<Word>, b: nat, s: nat)
    requires s <= 64 * |bitmap|
  {
    exists f, g :: b <= f < g < s && ShowsSet(bitmap, shift, f) && !ShowsSet(bitmap, shift, g)
  }

  // The set bits that an iteration at a boundary moves over end at one that shows clear.
  lemma SegmentStops(bitmap: seq<Word>, shift: seq<Word>, b: nat)
    requires b / 64 + 1 < |bitmap| && b % 64 == 0
    ensures var next := NextPos(bitmap, shift, b);
            b < next <= b + 64 && (next < b + 64 ==> !ShowsSet(bitmap, shift, next))
  {
    Segment(bitmap, shift, b);
    var word, next := WordAt(bitmap, shift, b), NextPos(bitmap, shift, b);
    if next < b + 64 {
      var z := LowestBit(word);
      ClearBehind(word, z);
      WordAtBits(bitmap, shift, b, next - b);
    }
  }

  lemma ClearBehind(word: Word, z: nat)
    requires word != 0 && word != ONES && z == LowestBit(word) && z + SkipOnes(word, z) < 64
    ensures !Bit(word, z + SkipOnes(word, z))
  {
    MixedWord(word);
    ShrLe(word, z);
    var rest := Shr(word, z);
    BitNot(rest, SkipOnes(word, z));
    BitShr(word, z, SkipOnes(word, z));
  }

  /** Once an iteration starts inside a word, the free positions of that word are seen clear. */
  lemma {:induction false} InWord(bitmap: seq<Word>, shift: seq<Word>, len: nat, b: nat, q: nat, s: nat)
    requires len < |bitmap| && b % 64 == 0 && b < q <= s < b + 64 && s < 64 * len && !Used(bitmap, s)
    ensures SeenClear(bitmap, shift, len, q, s, 1)
    decreases s - q
  {
    OffBoundary(b, q);
    Segment(bitmap, shift, q);
    var next := NextPos(bitmap, shift, q);
    SegmentSeen(bitmap, shift, len, q, s);
    if s < next {
      SegmentBits(bitmap, shift, q, s);
    } else {
      InWord(bitmap, shift, len, b, next, s);
      SeenLater(bitmap, shift, len, q, s);
    }
  }

  // Where no iteration starts at the boundary, one starts behind it or moves over it with a
  // window that is read right.
  lemma {:induction false} PassedOver(bitmap: seq<Word>, shift: seq<Word>, len: nat, from: nat, b: nat, s: nat)
    requires len < |bitmap| && from <= b < s < b + 64 && b % 64 == 0 && s < 64 * len && !Used(bitmap, s)
    requires !StartsAt(bitmap, shift, len, from, b)
    ensures SeenClear(bitmap, shift, len, from, s, 1)
    decreases b - from
  {
    assert from < b;
    Segment(bitmap, shift, from);
    var next := NextPos(bitmap, shift, from);
    SegmentSeen(bitmap, shift, len, from, s);
    if next <= b {
      if StartsAt(bitmap, shift, len, next, b) { StartsLater(bitmap, shift, len, from, b); }
      PassedOver(bitmap, shift, len, next, b, s);
      SeenLater(bitmap, shift, len, from, s);
    } else {
      OffBoundaryFrom(from, b, next);
      if s < next {
        SegmentBits(bitmap, shift, from, s);
      } else {
        InWord(bitmap, shift, len, b, next, s);
        SeenLater(bitmap, shift, len, from, s);
      }
    }
  }

  lemma OffBoundaryFrom(from: nat, b: nat, next: nat)
    requires from < b < next <= from + 64 && b % 64 == 0
    ensures from % 64 != 0
  {
  }

  lemma BoundaryBits(bitmap: seq<Word>, shift: seq<Word>, b: nat)
    requires b / 64 + 1 < |bitmap| && b % 64 == 0
    ensures var next, stop := NextPos(bitmap, shift, b), b + ClearAt(bitmap, shift, b);
            && stop <= next <= b + 64 && (next < b + 64 ==> stop < next)
            && forall p :: b <= p < next ==> (p < stop <==> !ShowsSet(bitmap, shift, p))
  {
    Segment(bitmap, shift, b);
    forall p | b <= p < NextPos(bitmap, shift, b)
      ensures p < b + ClearAt(bitmap, shift, b) <==> !ShowsSet(bitmap, shift, p)
    {
      SegmentBits(bitmap, shift, b, p);
    }
    if NextPos(bitmap, shift, b) < b + 64 { OffBoundary(b, NextPos(bitmap, shift, b)); }
  }

  // A free position among the set bits that an iteration at the boundary moves over is hidden.
  lemma HidesHere(bitmap: seq<Word>, shift: seq<Word>, len: nat, b: nat, s: nat)
    requires len < |bitmap| && b % 64 == 0 && b < s < 64 * len && s < NextPos(bitmap, shift, b)
    requires Used(bitmap, s - 1) && !Used(bitmap, s)
    ensures !SeenClear(bitmap, shift, len, b, s, 1) && EdgeBit(shift, s) && !Interrupted(bitmap, shift, b, s)
  {
    var stop := b + ClearAt(bitmap, shift, b);
    BoundaryBits(bitmap, shift, b);
    assert ShowsSet(bitmap, shift, s - 1) && s - 1 >= stop;
    assert ShowsSet(bitmap, shift, s);
    SetOnce(bitmap, shift, b, stop, s);
    SegmentSeen(bitmap, shift, len, b, s);
    assert SeenFrom(bitmap, shift, len, b)[s - b];
  }

  lemma SetOnce(bitmap: seq<Word>, shift: seq<Word>, b: nat, stop: nat, s: nat)
    requires s <= 64 * |bitmap| && forall p :: b <= p < s ==> (p < stop <==> !ShowsSet(bitmap, shift, p))
    ensures !Interrupted(bitmap, shift, b, s)
  {
  }

  // One behind them is seen, and the bit that ends them interrupts what is set before it.
  lemma ShowsLater(bitmap: seq<Word>, shift: seq<Word>, len: nat, b: nat, s: nat)
    requires len < |bitmap| && b % 64 == 0 && b < s < b + 64 && s < 64 * len && !Used(bitmap, s)
    requires NextPos(bitmap, shift, b) <= s
    ensures SeenClear(bitmap, shift, len, b, s, 1) && (!EdgeBit(shift, s) || Interrupted(bitmap, shift, b, s))
  {
    var next := NextPos(bitmap, shift, b);
    BoundaryBits(bitmap, shift, b);
    SegmentStops(bitmap, shift, b);
    InWord(bitmap, shift, len, b, next, s);
    SeenLater(bitmap, shift, len, b, s);
    if next < s { assert ShowsSet(bitmap, shift, next - 1) && !ShowsSet(bitmap, shift, next); }
  }

  // So an iteration at the boundary hides a free position that only the shift shows as set,
  // unless the set bits in front of it are interrupted.
  lemma BoundaryHides(bitmap: seq<Word>, shift: seq<Word>, len: nat, b: nat, s: nat)
    requires len < |bitmap| && b % 64 == 0 && b < s < b + 64 && s < 64 * len && Used(bitmap, s - 1) && !Used(bitmap, s)
    ensures SeenClear(bitmap, shift, len, b, s, 1) <==> !EdgeBit(shift, s) || Interrupted(bitmap, shift, b, s)
  {
    if s < NextPos(bitmap, shift, b) {
      HidesHere(bitmap, shift, len, b, s);
    } else {
      ShowsLater(bitmap, shift, len, b, s);
    }
  }

  // What an iteration that starts at `b` sees is what the loop sees.
  lemma SeenFromStart(bitmap: seq<Word>, shift: seq<Word>, len: nat, b: nat, s: nat, c: nat)
    requires len < |bitmap| && b <= s && StartsAt(bitmap, shift, len, 0, b)
    ensures SeenClear(bitmap, shift, len, 0, s, c) <==> SeenClear(bitmap, shift, len, b, s, c)
  {
    var seen, rest := Seen(bitmap, shift, len), SeenFrom(bitmap, shift, len, b);
    assert forall k :: 0 <= k < |rest| ==> rest[k] == seen[b + k];
    if ClearRun(rest, s - b, c) {
      assert forall k :: s <= k < s + c ==> seen[k] == rest[k - b];
    }
  }

  /** The loop hides position `s` although it is free: the shift shows it as set, in the word
      that an iteration reads at the boundary, and nothing interrupts the set bits before it. */
  ghost predicate Hidden(bitmap: seq<Word>, shift: seq<Word>, len: nat, s: nat)
    requires len < |bitmap| && s < 64 * len
  {
    var b := s / 64 * 64;
    EdgeBit(shift, s) && !Interrupted(bitmap, shift, b, s) && StartsAt(bitmap, shift, len, 0, b)
  }

  lemma InsideWord(s: nat)
    requires s % 64 != 0
    ensures var b := s / 64 * 64; b < s < b + 64 && b % 64 == 0
  {
  }

  lemma HiddenIs(bitmap: seq<Word>, shift: seq<Word>, len: nat, s: nat)
    requires len < |bitmap| && s % 64 != 0 && s < 64 * len && Used(bitmap, s - 1) && !Used(bitmap, s)
    ensures SeenClear(bitmap, shift, len, 0, s, 1) <==> !Hidden(bitmap, shift, len, s)
  {
    var b := s / 64 * 64;
    InsideWord(s);
    if StartsAt(bitmap, shift, len, 0, b) {
      SeenFromStart(bitmap, shift, len, b, s, 1);
      BoundaryHides(bitmap, shift, len, b, s);
    } else {
      PassedOver(bitmap, shift, len, 0, b, s);
    }
  }

  lemma WordsApart(a: nat, b: nat)
    requires a < b && a % 64 == 0 && b % 64 == 0
    ensures a + 64 <= b && (a + 64) % 64 == 0
  {
  }

  /** Behind used positions alone, an iteration starts at every word boundary. */
  lemma {:induction false} StartsBehindUsed(bitmap: seq<Word>, shift: seq<Word>, len: nat, from: nat, b: nat)
    requires len < |bitmap| && from <= b < 64 * len && from % 64 == 0 && b % 64 == 0
    requires forall p :: from <= p < b ==> Used(bitmap, p)
    ensures StartsAt(bitmap, shift, len, from, b)
    decreases b - from
  {
    if from < b {
      WordsApart(from, b);
      FullSegment(bitmap, shift, from);
      StartsBehindUsed(bitmap, shift, len, from + 64, b);
      StartsLater(bitmap, shift, len, from, b);
    }
  }

  lemma FullSegment(bitmap: seq<Word>, shift: seq<Word>, b: nat)
    requires b / 64 + 1 < |bitmap| && b % 64 == 0
    requires forall p :: b <= p < b + 64 ==> Used(bitmap, p)
    ensures NextPos(bitmap, shift, b) == b + 64
  {
    SegmentStops(bitmap, shift, b);
  }

  /** Where the boundary is the first of the bitmap, or a free position behind a used one, or
      everything before it is used, `Hidden` does not depend on the iterations. */
  lemma HiddenKnown(bitmap: seq<Word>, shift: seq<Word>, len: nat, s: nat)
    requires len < |bitmap| && s < 64 * len
    requires var b := s / 64 * 64;
             b == 0 || (Used(bitmap, b - 1) && !Used(bitmap, b)) || forall p :: 0 <= p < b ==> Used(bitmap, p)
    ensures Hidden(bitmap, shift, len, s) <==> EdgeBit(shift, s) && !Interrupted(bitmap, shift, s / 64 * 64, s)
  {
    var b := s / 64 * 64;
    assert b <= s && b % 64 == 0;
    if b == 0 || forall p :: 0 <= p < b ==> Used(bitmap, p) {
      StartsBehindUsed(bitmap, shift, len, 0, b);
    } else {
      Reached(bitmap, shift, len, 0, b);
    }
  }

  // ---------------------------------------------------------------- the search and the first fit

  /** The shift delivers no bit at the positions of a run that are read at a word boundary: all of
      them when the run starts at one, and otherwise those behind the next boundary, unless the
      run ends within 64 positions. */
  predicate RestClear(bitmap: seq<Word>, shift: seq<Word>, s: nat, c: nat) {
    if s % 64 == 0 then EdgesClear(shift, s, s + c)
    else !Free(bitmap, s, 64) || EdgesClear(shift, (s / 64 + 1) * 64, s + c)
  }

  /** Nor at the first position of a run inside a word. */
  predicate Undisturbed(bitmap: seq<Word>, shift: seq<Word>, s: nat, c: nat) {
    RestClear(bitmap, shift, s, c) && (s % 64 != 0 ==> !EdgeBit(shift, s))
  }

  lemma FirstFitStarts(bitmap: seq<Word>, len: nat, c: nat)
    requires len <= |bitmap| && c > 0 && FirstFit(BitsOf(bitmap, 64 * len), c).Some?
    ensures var s := FirstFit(BitsOf(bitmap, 64 * len), c).value;
            && s < s + c <= 64 * len && Free(bitmap, s, c) && !Used(bitmap, s) && (s > 0 ==> Used(bitmap, s - 1))
  {
    var bits := BitsOf(bitmap, 64 * len);
    var s := FirstFit(bits, c).value;
    assert forall p :: s <= p < s + c ==> !bits[p];
    if s > 0 && !bits[s - 1] { assert ClearRun(bits, s - 1, c); }
  }

  /** The exact condition, for a request that fits in the bitmap: the search answers with the
      first fit if and only if the shift delivers no bit where the rest of the run is read at a
      word boundary, and a run inside a word does not have its first position hidden. */
  lemma SearchFindsFirst(bitmap: seq<Word>, shift: seq<Word>, len: nat, c: nat)
    requires len < |bitmap| && c > 0 && FirstFit(BitsOf(bitmap, 64 * len), c).Some?
    ensures var s := FirstFit(BitsOf(bitmap, 64 * len), c).value;
            && s < 64 * len
            && (Search(bitmap, shift, len, c) == Some(s)
                <==> RestClear(bitmap, shift, s, c) && (s % 64 != 0 ==> !Hidden(bitmap, shift, len, s)))
  {
    var s := FirstFit(BitsOf(bitmap, 64 * len), c).value;
    FirstFitStarts(bitmap, len, c);
    FirstFitSeen(bitmap, shift, len, c);
    if s % 64 != 0 { HiddenIs(bitmap, shift, len, s); }
    SeenPrefix(Seen(bitmap, shift, len), s, c);
    if s % 64 == 0 || SeenClear(bitmap, shift, len, 0, s, 1) {
      Reached(bitmap, shift, len, 0, s);
      SeenFromStart(bitmap, shift, len, s, s, c);
      if s % 64 == 0 { AlignedSeen(bitmap, shift, len, s, c); } else { InnerSeen(bitmap, shift, len, s, c); }
    }
  }

  lemma SeenPrefix(seen: seq<bool>, s: nat, c: nat)
    requires c > 0
    ensures ClearRun(seen, s, c) ==> ClearRun(seen, s, 1)
  {
  }

  /** Whatever the bitmap, an undisturbed first fit is answered with. */
  lemma SearchUndisturbed(bitmap: seq<Word>, shift: seq<Word>, len: nat, c: nat)
    requires len < |bitmap| && c > 0 && FirstFit(BitsOf(bitmap, 64 * len), c).Some?
    requires Undisturbed(bitmap, shift, FirstFit(BitsOf(bitmap, 64 * len), c).value, c)
    ensures Search(bitmap, shift, len, c) == FirstFit(BitsOf(bitmap, 64 * len), c)
  {
    SearchFindsFirst(bitmap, shift, len, c);
  }

  /** In particular when the shift delivers no bit at any position of the run. */
  lemma UndisturbedRun(bitmap: seq<Word>, shift: seq<Word>, s: nat, c: nat)
    requires c > 0 && EdgesClear(shift, s, s + c)
    ensures Undisturbed(bitmap, shift, s, c)
  {
    assert !EdgeBit(shift, s);
  }

  /** Behind used positions alone, a first fit is answered with if and only if it is undisturbed. */
  lemma SearchBehindUsed(bitmap: seq<Word>, shift: seq<Word>, len: nat, c: nat)
    requires len < |bitmap| && c > 0 && FirstFit(BitsOf(bitmap, 64 * len), c).Some?
    requires forall p :: 0 <= p < FirstFit(BitsOf(bitmap, 64 * len), c).value ==> Used(bitmap, p)
    ensures var s := FirstFit(BitsOf(bitmap, 64 * len), c).value;
            Search(bitmap, shift, len, c) == Some(s) <==> Undisturbed(bitmap, shift, s, c)
  {
    var s := FirstFit(BitsOf(bitmap, 64 * len), c).value;
    SearchFindsFirst(bitmap, shift, len, c);
    if s % 64 != 0 { HiddenKnown(bitmap, shift, len, s); }
  }

  /** One block: the first free one is answered with if and only if the shift delivers no bit at
      its position. */
  lemma SearchForOne(bitmap: seq<Word>, shift: seq<Word>, len: nat)
    requires len < |bitmap| && FirstFit(BitsOf(bitmap, 64 * len), 1).Some?
    ensures var s := FirstFit(BitsOf(bitmap, 64 * len), 1).value;
            Search(bitmap, shift, len, 1) == Some(s) <==> !EdgeBit(shift, s)
  {
    var bits := BitsOf(bitmap, 64 * len);
    var s := FirstFit(bits, 1).value;
    forall p | 0 <= p < s
      ensures Used(bitmap, p)
    {
      assert !ClearRun(bits, p, 1);
    }
    SearchBehindUsed(bitmap, shift, len, 1);
    if s % 64 != 0 { Quot(s, s / 64, s % 64); }
  }

  // ---------------------------------------------------------------- the x86-64 shift

  /** The x86-64 shift takes its count modulo 64 and so delivers the next word itself. */
  predicate Masked(bitmap: seq<Word>, shift: seq<Word>) {
    |bitmap| > 0 && shift == bitmap[1..]
  }

  lemma MaskedEdge(bitmap: seq<Word>, shift: seq<Word>, p: nat)
    requires Masked(bitmap, shift) && p + 64 < 64 * |bitmap|
    ensures EdgeBit(shift, p) == Used(bitmap, p + 64)
  {
  }

  /** Positions `lo .. hi` are free, one word on. */
  predicate FreeOneOn(bitmap: seq<Word>, lo: nat, hi: nat)
    requires hi + 64 <= 64 * |bitmap|
  {
    forall p :: lo + 64 <= p < hi + 64 ==> !Used(bitmap, p)
  }

  lemma MaskedEdges(bitmap: seq<Word>, shift: seq<Word>, lo: nat, hi: nat)
    requires Masked(bitmap, shift) && hi + 64 <= 64 * |bitmap|
    ensures EdgesClear(shift, lo, hi) <==> FreeOneOn(bitmap, lo, hi)
  {
    forall p: nat | p < hi
      ensures EdgeBit(shift, p) == Used(bitmap, p + 64)
    {
      MaskedEdge(bitmap, shift, p);
    }
    if EdgesClear(shift, lo, hi) {
      forall p | lo + 64 <= p < hi + 64
        ensures !Used(bitmap, p)
      {
        assert !EdgeBit(shift, p - 64);
      }
    }
  }

  /** `RestClear` and `Undisturbed` on x86-64, in terms of the bitmap. */
  predicate RestFreeOneOn(bitmap: seq<Word>, s: nat, c: nat)
    requires s + c + 64 <= 64 * |bitmap|
  {
    if s % 64 == 0 then FreeOneOn(bitmap, s, s + c)
    else !Free(bitmap, s, 64) || FreeOneOn(bitmap, (s / 64 + 1) * 64, s + c)
  }

  predicate FreeAgain(bitmap: seq<Word>, s: nat, c: nat)
    requires c > 0 && s + c + 64 <= 64 * |bitmap|
  {
    RestFreeOneOn(bitmap, s, c) && (s % 64 != 0 ==> !Used(bitmap, s + 64))
  }

  lemma MaskedRun(bitmap: seq<Word>, shift: seq<Word>, s: nat, c: nat)
    requires Masked(bitmap, shift) && c > 0 && s + c + 64 <= 64 * |bitmap|
    ensures RestClear(bitmap, shift, s, c) <==> RestFreeOneOn(bitmap, s, c)
    ensures Undisturbed(bitmap, shift, s, c) <==> FreeAgain(bitmap, s, c)
  {
    MaskedEdges(bitmap, shift, s, s + c);
    MaskedEdges(bitmap, shift, (s / 64 + 1) * 64, s + c);
    MaskedEdge(bitmap, shift, s);
  }

  /** The x86-64 search, in terms of the bitmap.  A first fit is found when what the loop reads at
      word boundaries is free one word on as well; for the part behind the first position that
      is necessary, and for all of it where the run starts at a word boundary, or behind used
      positions alone, or one block is asked for. */
  lemma MaskedSearch(bitmap: seq<Word>, shift: seq<Word>, len: nat, c: nat)
    requires len < |bitmap| && Masked(bitmap, shift) && c > 0 && FirstFit(BitsOf(bitmap, 64 * len), c).Some?
    ensures var s := FirstFit(BitsOf(bitmap, 64 * len), c).value;
            var found := Search(bitmap, shift, len, c) == Some(s);
            && s + c + 64 <= 64 * |bitmap|
            && (FreeAgain(bitmap, s, c) ==> found)
            && (found ==> RestFreeOneOn(bitmap, s, c))
            && (s % 64 == 0 || (forall p :: 0 <= p < s ==> Used(bitmap, p)) ==> (found <==> FreeAgain(bitmap, s, c)))
            && (c == 1 ==> (found <==> !Used(bitmap, s + 64)))
  {
    var s := FirstFit(BitsOf(bitmap, 64 * len), c).value;
    FirstFitStarts(bitmap, len, c);
    MaskedRun(bitmap, shift, s, c);
    SearchFindsFirst(bitmap, shift, len, c);
    if Undisturbed(bitmap, shift, s, c) { SearchUndisturbed(bitmap, shift, len, c); }
    if forall p :: 0 <= p < s ==> Used(bitmap, p) { SearchBehindUsed(bitmap, shift, len, c); }
    if c == 1 {
      SearchForOne(bitmap, shift, len);
      MaskedEdge(bitmap, shift, s);
    }
  }

  /** A free word in front of a used one: one free block is asked for, 64 are there, and the
      x86-64 search answers that there is none. */
  lemma MaskedSearchMisses()
    ensures FirstFit(BitsOf([0, ONES], 64), 1) == Some(0)
    ensures Search([0, ONES], [ONES], 1, 1) == None
  {
    var bitmap, shift := [0, ONES], [ONES];
    var bits, seen := BitsOf(bitmap, 64), Seen(bitmap, shift, 1);
    ZeroBits(0);
    assert bits[0] == Used(bitmap, 0) == Bit(0, 0);
    assert ClearRun(bits, 0, 1);
    FirstFitIs(bits, 1, Some(0));
    assert WordAt(bitmap, shift, 0) == ONES;
    assert NextPos(bitmap, shift, 0) == 64 && ClearAt(bitmap, shift, 0) == 0;
    assert SeenFrom(bitmap, shift, 1, 64) == [];
    assert forall k :: 0 <= k < |seen| ==> seen[k];
    forall t: nat ensures !ClearRun(seen, t, 1) { if t < |seen| { assert seen[t]; } }
    FirstFitIs(seen, 1, None);
  }

  // ---------------------------------------------------------------- a single window

  ghost predicate Covers(a: nat, b: nat) {
    forall k: nat :: Bit(b, k) ==> Bit(a, k)
  }

  lemma {:induction false} OrOfCovered(a: nat, b: nat)
    requires Covers(a, b)
    ensures Or(a, b) == a
  {
    if a == 0 {
      forall k: nat ensures !Bit(b, k) { ZeroBits(k); }
      assert b != 0 ==> Bit(b, LowestBit(b));
    } else {
      assert Bit(b, 0) ==> Bit(a, 0);
      forall k: nat
        ensures Bit(b / 2, k) ==> Bit(a / 2, k)
      {
        assert Bit(b, k + 1) ==> Bit(a, k + 1);
      }
      OrOfCovered(a / 2, b / 2);
    }
  }

  lemma OrAbsorbs(a: nat, b: nat)
    ensures Or(a, b) == a <==> Covers(a, b)
  {
    if Covers(a, b) {
      OrOfCovered(a, b);
    } else {
      var k: nat :| Bit(b, k) && !Bit(a, k);
      BitOr(a, b, k);
    }
  }

  /** The x86-64 shift reads the same window as one that gives 0 if and only if the position is
      off a word boundary or the next word has no bit that this word lacks. */
  lemma MaskedWindowExact(a: Word, b: Word, off: nat)
    requires off < 64
    ensures Window(a, b, off, b) == Window(a, b, off, 0) <==> off != 0 || Covers(a, b)
  {
    OrAbsorbs(a, b);
    OrAbsorbs(a, 0);
    forall k: nat ensures !Bit(0, k) { ZeroBits(k); }
  }
}
