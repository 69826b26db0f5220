/** Which record answers an edge of a retained page, and what the answer carries. */
module SurfaceShiftRecords {
  import opened Numbers
  import opened Floats
  import opened ChunkKeys
  import opened SurfaceShift

  predicate StrictlyByEdge(records: seq<ShiftRecord>) {
    forall i, j :: 0 <= i < j < |records| ==> records[i].edge < records[j].edge
  }

  /** The record holds samples on opposite sides of the surface, somewhere on the edge. */
  predicate Usable(page: RetainedPage, record: ShiftRecord, isovalue: Float) {
    && record.offset < page.cellSpacing && FiniteCell(record.a) && FiniteCell(record.b)
    && (Less(record.a.density, isovalue) <==> !Less(record.b.density, isovalue))
  }

  predicate SameSurface(page: RetainedPage, isovalue: Float) {
    page.shiftValid && IsFinite(isovalue) && Equal(isovalue, page.isovalue)
  }

  /** `edge` runs from a to b, or backwards, on the page's lattice, and record k is the one kept for it. */
  predicate RecordedAs(page: RetainedPage, a: GridPoint, b: GridPoint, edge: LatticeEdge, reversed: bool, k: nat) {
    && ValidGeometry(page) && ValidEdge(edge) && EndPoints(page.key, edge, reversed, a, b)
    && k < |page.records| && page.records[k].edge == EdgeNumber(edge)
  }

  /** The point `distance` units up the axis from start. */
  predicate StepsFrom(start: GridPoint, axis: int, distance: int, p: GridPoint) {
    && p.x - start.x == (if axis == 0 then distance else 0)
    && p.y - start.y == (if axis == 1 then distance else 0)
    && p.z - start.z == (if axis == 2 then distance else 0)
  }

  /** The answer runs the same way as the edge was asked for, and carries the record's samples one unit apart at its offset. */
  predicate Carries(page: RetainedPage, edge: LatticeEdge, reversed: bool, record: ShiftRecord, r: ResolvedEdge) {
    var start := EdgeStart(page.key, edge);
    if reversed then
      && r.a == record.b && StepsFrom(start, edge.axis, record.offset + 1, r.fineA)
      && r.b == record.a && StepsFrom(start, edge.axis, record.offset, r.fineB)
    else
      && r.a == record.a && StepsFrom(start, edge.axis, record.offset, r.fineA)
      && r.b == record.b && StepsFrom(start, edge.axis, record.offset + 1, r.fineB)
  }

  /** Among records in strict order the search finds the wanted edge exactly where it is. */
  lemma {:induction false} SearchFinds(records: seq<ShiftRecord>, edge: int, from: nat, k: nat)
    requires StrictlyByEdge(records) && from <= k < |records| && records[k].edge == edge
    ensures FirstRecordFrom(records, edge, from) == k
    decreases k - from
  {
    if from < k {
      SearchFinds(records, edge, from + 1, k);
    }
  }

  lemma RecordedAnswer(page: RetainedPage, a: GridPoint, b: GridPoint, isovalue: Float, edge: LatticeEdge, reversed: bool, k: nat)
    requires StrictlyByEdge(page.records) && RecordedAs(page, a, b, edge, reversed, k)
    ensures
      var r := ResolveFromRecord(page, a, b, isovalue);
      && (r.Some? <==> SameSurface(page, isovalue) && Usable(page, page.records[k], isovalue))
      && (r.Some? ==> Carries(page, edge, reversed, page.records[k], r.value))
  {
    EdgeNamesAreExact(page, a, b, edge, reversed);
    SearchFinds(page.records, EdgeNumber(edge), 0, k);
    hide FindEdge, EndPoints, EdgeNumber, EdgeStart, FiniteCell, StrictlyByEdge;
  }

  /** An edge is answered exactly when the page's surface is the one asked about and its records hold a usable one under the
      number of the edge named by the end points; the answer is then that record's. */
  lemma RecordAnswersExactly(page: RetainedPage, a: GridPoint, b: GridPoint, isovalue: Float)
    requires StrictlyByEdge(page.records)
    ensures ResolveFromRecord(page, a, b, isovalue).Some?
       <==> SameSurface(page, isovalue)
            && exists edge, reversed, k: nat ::
                 RecordedAs(page, a, b, edge, reversed, k) && Usable(page, page.records[k], isovalue)
    ensures forall edge, reversed, k: nat ::
      RecordedAs(page, a, b, edge, reversed, k) && ResolveFromRecord(page, a, b, isovalue).Some? ==>
        Carries(page, edge, reversed, page.records[k], ResolveFromRecord(page, a, b, isovalue).value)
  {
    forall edge, reversed, k: nat | RecordedAs(page, a, b, edge, reversed, k)
      ensures
        var r := ResolveFromRecord(page, a, b, isovalue);
        && (r.Some? <==> SameSurface(page, isovalue) && Usable(page, page.records[k], isovalue))
        && (r.Some? ==> Carries(page, edge, reversed, page.records[k], r.value))
    {
      RecordedAnswer(page, a, b, isovalue, edge, reversed, k);
    }
    if ResolveFromRecord(page, a, b, isovalue).Some? {
      var edge, reversed, k := AnsweredFrom(page, a, b, isovalue);
    }
    hide ResolveFromRecord, RecordedAs, Usable, Carries, StrictlyByEdge;
  }

  lemma AnsweredFrom(page: RetainedPage, a: GridPoint, b: GridPoint, isovalue: Float)
    returns (edge: LatticeEdge, reversed: bool, k: nat)
    requires ResolveFromRecord(page, a, b, isovalue).Some?
    ensures RecordedAs(page, a, b, edge, reversed, k) && SameSurface(page, isovalue)
  {
    var named := FindEdge(page, a, b).value;
    edge, reversed, k := named.edge, named.reversed, FirstRecordFrom(page.records, EdgeNumber(named.edge), 0);
    NamedGeometry(page, a, b);
    EdgeNamesAreExact(page, a, b, edge, reversed);
    hide FindEdge, EndPoints, EdgeNumber, FirstRecordFrom, ValidGeometry;
  }

  lemma NamedGeometry(page: RetainedPage, a: GridPoint, b: GridPoint)
    requires FindEdge(page, a, b).Some?
    ensures ValidGeometry(page)
  {}

  // ---- The other direction ----

  function Exchanged(r: ResolvedEdge): ResolvedEdge {
    ResolvedEdge(r.fineB, r.fineA, r.b, r.a)
  }

  lemma NameOfTheReverse(page: RetainedPage, a: GridPoint, b: GridPoint)
    ensures
      var forth, back := FindEdge(page, a, b), FindEdge(page, b, a);
      if forth.Some? then back == Some(NamedEdge(forth.value.edge, !forth.value.reversed)) else back.None?
  {
    if ValidGeometry(page) {
      var forth, back := FindEdge(page, a, b), FindEdge(page, b, a);
      if forth.Some? {
        EdgeNamesAreExact(page, a, b, forth.value.edge, forth.value.reversed);
        EdgeNamesAreExact(page, b, a, forth.value.edge, !forth.value.reversed);
      } else if back.Some? {
        EdgeNamesAreExact(page, b, a, back.value.edge, back.value.reversed);
        EdgeNamesAreExact(page, a, b, back.value.edge, !back.value.reversed);
      }
      hide FindEdge, ValidEdge, EdgeStart, EdgeEnd;
    }
  }

  /** Asking for an edge backwards gives the same answer with its ends exchanged. */
  lemma ReverseAnswersReversed(page: RetainedPage, dirty: Option<Box3>, a: GridPoint, b: GridPoint, isovalue: Float)
    ensures
      var forth := ResolveMultiresolutionEdge(page, dirty, a, b, isovalue);
      ResolveMultiresolutionEdge(page, dirty, b, a, isovalue)
      == if forth.Some? then Some(Exchanged(forth.value)) else None
  {
    RecordReversed(page, a, b, isovalue);
    assert SegmentBox(a, b) == SegmentBox(b, a);
    hide ResolveFromRecord, Separated, SegmentBox;
  }

  lemma RecordReversed(page: RetainedPage, a: GridPoint, b: GridPoint, isovalue: Float)
    ensures
      var forth := ResolveFromRecord(page, a, b, isovalue);
      ResolveFromRecord(page, b, a, isovalue) == if forth.Some? then Some(Exchanged(forth.value)) else None
  {
    NameOfTheReverse(page, a, b);
    hide FindEdge, EdgeNumber, EdgeStart, Along, FiniteCell, FirstRecordFrom;
  }

  /** The whole answer: a page with dirty bounds answers an edge that stays more than one unit clear of them on some axis, and
      only such an edge, as its record does. */
  lemma EdgeIsAnsweredExactly(page: RetainedPage, dirty: Option<Box3>, a: GridPoint, b: GridPoint, isovalue: Float)
    requires Fits64(a) && Fits64(b) && (dirty.Some? ==> Fits64(dirty.value.minimum) && Fits64(dirty.value.maximum))
    ensures ResolveMultiresolutionEdge(page, dirty, a, b, isovalue)
         == if dirty.Some? && FarApart(SegmentBox(a, b), dirty.value) then ResolveFromRecord(page, a, b, isovalue) else None
  {
    if dirty.Some? {
      var s, d := SegmentBox(a, b), dirty.value;
      SeparatedIsDistance(s.minimum.x, s.maximum.x, d.minimum.x, d.maximum.x);
      SeparatedIsDistance(s.minimum.y, s.maximum.y, d.minimum.y, d.maximum.y);
      SeparatedIsDistance(s.minimum.z, s.maximum.z, d.minimum.z, d.maximum.z);
    }
    hide Separated;
  }
}
