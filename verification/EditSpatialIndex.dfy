/** The index object: rebuilt as a whole, queried by bounds or by transaction. */
module EditSpatialIndexes {
  import opened Numbers
  import opened ChunkKeys
  import opened EditCommands
  import opened EditTransactions
  import opened SampleEdits
  import opened SpatialIndex

  datatype IndexStatus =
    Ok | InvalidInput | KeyCapacityExceeded | CandidateCapacityExceeded | ResultCapacityExceeded | DuplicateKey

  const LEVELS := 21

  function Product(a: nat, b: nat): nat { a * b }

  /** Candidate keys a level contributes, and the first two axes' product that is checked on the way. */
  function PlaneCandidates(b: Box3, lod: U8): nat
    requires Bounds64(b) && Extent(lod) > 0
  {
    Product(KeyRange(b.minimum.x, b.maximum.x, lod).Count(), KeyRange(b.minimum.y, b.maximum.y, lod).Count())
  }

  function LevelCandidates(b: Box3, lod: U8): nat
    requires Bounds64(b) && Extent(lod) > 0
  {
    Product(PlaneCandidates(b, lod), KeyRange(b.minimum.z, b.maximum.z, lod).Count())
  }

  /** The product when it does not pass the limit. */
  function MultiplyFits(left: nat, right: nat, maximum: nat): Option<nat> {
    if left != 0 && right > maximum / left then None else Some(left * right)
  }

  lemma MultiplyFitsIsExact(left: nat, right: nat, maximum: nat)
    ensures MultiplyFits(left, right, maximum) == if left * right <= maximum then Some(left * right) else None
  {
    if left != 0 {
      QuotientBounds(maximum, left);
      if right > maximum / left {
        assert right * left >= (maximum / left + 1) * left;
        assert (maximum / left + 1) * left == maximum / left * left + left;
      } else {
        assert right * left <= maximum / left * left;
      }
    }
  }

  /** Candidates of the populated levels below n. */
  ghost function CandidatesBelow(b: Box3, populated: seq<bool>, n: nat): nat
    requires Bounds64(b) && n <= |populated| == LEVELS
  {
    if n == 0 then 0
    else
      ExtentFacts(n - 1);
      CandidatesBelow(b, populated, n - 1) + (if populated[n - 1] then LevelCandidates(b, n - 1) else 0)
  }

  ghost predicate PlanesFitBelow(b: Box3, populated: seq<bool>, n: nat, maximum: nat)
    requires Bounds64(b) && n <= |populated| == LEVELS
  {
    n == 0 || (PlanesFitBelow(b, populated, n - 1, maximum)
               && (ExtentFacts(n - 1); populated[n - 1] ==> PlaneCandidates(b, n - 1) <= maximum))
  }

  /** Every product and running sum the enumeration forms stays within the limit. */
  ghost predicate CandidatesFit(b: Box3, populated: seq<bool>, before: nat, maximum: nat)
    requires Bounds64(b) && |populated| == LEVELS
  {
    before + CandidatesBelow(b, populated, LEVELS) <= maximum && PlanesFitBelow(b, populated, LEVELS, maximum)
  }

  lemma {:induction false} CandidatesGrow(b: Box3, populated: seq<bool>, n: nat, m: nat, maximum: nat)
    requires Bounds64(b) && n <= m <= |populated| == LEVELS
    ensures CandidatesBelow(b, populated, n) <= CandidatesBelow(b, populated, m)
    ensures PlanesFitBelow(b, populated, m, maximum) ==> PlanesFitBelow(b, populated, n, maximum)
    decreases m - n
  {
    if n < m {
      CandidatesGrow(b, populated, n, m - 1, maximum);
      ExtentFacts(m - 1);
    }
  }

  /** Candidates of the first n commands, each enumerated on its own. */
  ghost function CandidatesOf(commands: seq<EditCommand>, populated: seq<bool>, n: nat): nat
    requires n <= |commands| && |populated| == LEVELS
  {
    if n == 0 then 0
    else
      var b := commands[n - 1].bounds;
      CandidatesOf(commands, populated, n - 1) + (if Bounds64(b) then CandidatesBelow(b, populated, LEVELS) else 0)
  }

  /** The candidates of the first n commands, added up, and every product formed on the way stay within the limit. */
  ghost predicate TransactionFits(commands: seq<EditCommand>, populated: seq<bool>, n: nat, maximum: nat)
    requires n <= |commands| && |populated| == LEVELS
  {
    && CandidatesOf(commands, populated, n) <= maximum
    && forall j :: 0 <= j < n && Bounds64(commands[j].bounds) ==>
                     PlanesFitBelow(commands[j].bounds, populated, LEVELS, maximum)
  }

  lemma OneMoreFits(commands: seq<EditCommand>, populated: seq<bool>, n: nat, maximum: nat)
    requires n < |commands| && |populated| == LEVELS && Bounds64(commands[n].bounds)
    requires TransactionFits(commands, populated, n, maximum)
    ensures CandidatesOf(commands, populated, n + 1)
         == CandidatesOf(commands, populated, n) + CandidatesBelow(commands[n].bounds, populated, LEVELS)
    ensures TransactionFits(commands, populated, n + 1, maximum)
       <==> CandidatesFit(commands[n].bounds, populated, CandidatesOf(commands, populated, n), maximum)
  {
    hide CandidatesBelow, PlanesFitBelow;
  }

  lemma {:induction false} FittingShrinks(commands: seq<EditCommand>, populated: seq<bool>, n: nat, m: nat, maximum: nat)
    requires n <= m <= |commands| && |populated| == LEVELS && TransactionFits(commands, populated, m, maximum)
    ensures TransactionFits(commands, populated, n, maximum)
    decreases m - n
  {
    if n < m {
      FittingShrinks(commands, populated, n, m - 1, maximum);
    }
  }

  ghost predicate Lists(keys: seq<ChunkKey>, s: set<ChunkKey>) {
    StrictlySorted(keys) && forall k :: k in keys <==> k in s
  }

  class EditSpatialIndex {
    const keyCapacity: nat
    const candidateCapacity: nat
    const resultCapacity: nat
    var keys: set<ChunkKey>
    var populated: seq<bool>

    ghost predicate Valid()
      reads this
    {
      && |keys| <= keyCapacity
      && (forall k :: k in keys ==> ValidKey(k))
      && LevelsOf(populated, keys)
    }

    constructor (keyCapacity: nat, candidateCapacity: nat, resultCapacity: nat)
      ensures Valid() && keys == {}
      ensures this.keyCapacity == keyCapacity && this.candidateCapacity == candidateCapacity
      ensures this.resultCapacity == resultCapacity
    {
      this.keyCapacity, this.candidateCapacity, this.resultCapacity := keyCapacity, candidateCapacity, resultCapacity;
      keys := {};
      populated := seq(LEVELS, i => false);
    }

    /** All or nothing: a refused rebuild leaves the previous index in place. */
    method Rebuild(newKeys: seq<ChunkKey>) returns (status: IndexStatus)
      requires Valid()
      modifies this
      ensures Valid()
      ensures status == Ok <==>
        |newKeys| <= keyCapacity && forall i :: 0 <= i < |newKeys| ==> ValidAndNew(newKeys, i)
      ensures status == KeyCapacityExceeded <==> |newKeys| > keyCapacity
      ensures status == Ok ==> keys == set k | k in newKeys
      ensures status != Ok ==> keys == old(keys) && populated == old(populated)
    {
      if |newKeys| > keyCapacity {
        return KeyCapacityExceeded;
      }
      var replacement, levels;
      status, replacement, levels := Collect(newKeys);
      if status == Ok {
        keys, populated := replacement, levels;
      }
    }

    /** The keys as a set with their levels, unless one is invalid or repeated. */
    static method Collect(newKeys: seq<ChunkKey>)
      returns (status: IndexStatus, replacement: set<ChunkKey>, levels: seq<bool>)
      ensures status == Ok || status == InvalidInput || status == DuplicateKey
      ensures status == Ok <==>
        forall i :: 0 <= i < |newKeys| ==> ValidAndNew(newKeys, i)
      ensures status == Ok ==>
        && replacement == (set k | k in newKeys) && |replacement| == |newKeys| && LevelsOf(levels, replacement)
        && forall k :: k in replacement ==> ValidKey(k)
    {
      replacement, levels := {}, seq(LEVELS, i => false);
      for i := 0 to |newKeys|
        invariant |replacement| == i && LevelsOf(levels, replacement)
        invariant replacement == KeysBefore(newKeys, i) && forall k :: k in replacement ==> ValidKey(k)
        invariant forall a :: 0 <= a < i ==> ValidAndNew(newKeys, a)
      {
        var key := newKeys[i];
        KeysBeforeGrow(newKeys, i);
        if !ValidKey(key) {
          assert !ValidAndNew(newKeys, i);
          return InvalidInput, replacement, levels;
        }
        if key in replacement {
          assert !ValidAndNew(newKeys, i);
          return DuplicateKey, replacement, levels;
        }
        LevelsAfterInsert(replacement, levels, key);
        replacement := replacement + {key};
        levels := levels[key.lod := true];
      }
      assert KeysBefore(newKeys, |newKeys|) == set k | k in newKeys;
      return Ok, replacement, levels;
    }

    ghost function Reached(b: Box3): set<ChunkKey>
      requires Bounds64(b)
      reads this
    {
      set k | k in keys && Walked(k, b)
    }

    /** Indexed keys of one row of the walk, added to the results so far. */
    method AppendRow(xs: AxisRange, y: int, z: int, lod: U8, found: set<ChunkKey>)
      returns (ok: bool, results: set<ChunkKey>)
      requires |found| <= resultCapacity && I32_MIN <= xs.Low() && xs.High() <= I32_MAX
      requires I32_MIN <= y <= I32_MAX && I32_MIN <= z <= I32_MAX
      ensures ok ==> |results| <= resultCapacity && results == found + Row(keys, xs, y, z, lod)
      ensures !ok ==> |found + Row(keys, xs, y, z, lod)| > resultCapacity
    {
      ghost var row := Row(keys, xs, y, z, lod);
      results := found;
      for x := xs.Low() to Max(xs.Low(), xs.High() + 1)
        invariant |results| <= resultCapacity
        invariant results == found + set k | k in row && k.x < x
      {
        var key := ChunkKey(x, y, z, lod);
        if key in keys {
          if |results| >= resultCapacity && key !in results {
            LargerThan(results + {key}, found + row);
            return false, results;
          }
          results := results + {key};
        }
      }
      return true, results;
    }

    method AppendPlane(xs: AxisRange, ys: AxisRange, z: int, lod: U8, found: set<ChunkKey>)
      returns (ok: bool, results: set<ChunkKey>)
      requires |found| <= resultCapacity && I32_MIN <= xs.Low() && xs.High() <= I32_MAX
      requires I32_MIN <= ys.Low() && ys.High() <= I32_MAX && I32_MIN <= z <= I32_MAX
      ensures ok ==> |results| <= resultCapacity && results == found + Plane(keys, xs, ys, z, lod)
      ensures !ok ==> |found + Plane(keys, xs, ys, z, lod)| > resultCapacity
    {
      ghost var plane := Plane(keys, xs, ys, z, lod);
      results := found;
      for y := ys.Low() to Max(ys.Low(), ys.High() + 1)
        invariant |results| <= resultCapacity
        invariant results == found + set k | k in plane && k.y < y
      {
        ghost var before := results;
        ok, results := AppendRow(xs, y, z, lod, results);
        if !ok {
          LargerThan(before + Row(keys, xs, y, z, lod), found + plane);
          return;
        }
      }
      return true, results;
    }

    method AppendBox(xs: AxisRange, ys: AxisRange, zs: AxisRange, lod: U8, found: set<ChunkKey>)
      returns (ok: bool, results: set<ChunkKey>)
      requires |found| <= resultCapacity && I32_MIN <= xs.Low() && xs.High() <= I32_MAX
      requires I32_MIN <= ys.Low() && ys.High() <= I32_MAX && I32_MIN <= zs.Low() && zs.High() <= I32_MAX
      ensures ok ==> |results| <= resultCapacity && results == found + Slab(keys, xs, ys, zs, lod)
      ensures !ok ==> |found + Slab(keys, xs, ys, zs, lod)| > resultCapacity
    {
      ghost var slab := Slab(keys, xs, ys, zs, lod);
      results := found;
      for z := zs.Low() to Max(zs.Low(), zs.High() + 1)
        invariant |results| <= resultCapacity
        invariant results == found + set k | k in slab && k.z < z
      {
        ghost var before := results;
        ok, results := AppendPlane(xs, ys, z, lod, results);
        if !ok {
          LargerThan(before + Plane(keys, xs, ys, z, lod), found + slab);
          return;
        }
      }
      return true, results;
    }

    /** Indexed keys of one level that the walk finds, added to the results so far. */
    method AppendLevel(b: Box3, lod: U8, found: set<ChunkKey>) returns (ok: bool, results: set<ChunkKey>)
      requires Bounds64(b) && Extent(lod) > 0 && |found| <= resultCapacity
      ensures ok ==> |results| <= resultCapacity && results == found + ReachedAt(keys, b, lod)
      ensures !ok ==> |found + ReachedAt(keys, b, lod)| > resultCapacity
    {
      var xs := KeyRange(b.minimum.x, b.maximum.x, lod);
      var ys := KeyRange(b.minimum.y, b.maximum.y, lod);
      var zs := KeyRange(b.minimum.z, b.maximum.z, lod);
      ReachedIsASlab(keys, b, lod);
      ok, results := AppendBox(xs, ys, zs, lod, found);
    }

    /** The size of one level's box, when the products and the running sum stay within the limit. */
    method CountLevel(b: Box3, lod: U8, candidates: nat) returns (r: Option<nat>)
      requires Bounds64(b) && Extent(lod) > 0 && candidates <= candidateCapacity
      ensures r.Some? <==> PlaneCandidates(b, lod) <= candidateCapacity
                           && candidates + LevelCandidates(b, lod) <= candidateCapacity
      ensures r.Some? ==> r.value == candidates + LevelCandidates(b, lod)
    {
      var xs := KeyRange(b.minimum.x, b.maximum.x, lod).Count();
      var ys := KeyRange(b.minimum.y, b.maximum.y, lod).Count();
      var zs := KeyRange(b.minimum.z, b.maximum.z, lod).Count();
      MultiplyFitsIsExact(xs, ys, candidateCapacity);
      var plane := MultiplyFits(xs, ys, candidateCapacity);
      if plane.None? {
        return None;
      }
      MultiplyFitsIsExact(plane.value, zs, candidateCapacity);
      var level := MultiplyFits(plane.value, zs, candidateCapacity);
      if level.None? || level.value > candidateCapacity - candidates {
        return None;
      }
      return Some(candidates + level.value);
    }

    /** Where the walk stands after the levels below n, or why it stopped. */
    ghost predicate Standing(b: Box3, found: set<ChunkKey>, candidates: nat, n: nat, status: IndexStatus,
                             results: set<ChunkKey>, total: nat)
      requires Bounds64(b) && n <= LEVELS == |populated|
      reads this
    {
      match status
      case Ok =>
        && total == candidates + CandidatesBelow(b, populated, n) <= candidateCapacity
        && PlanesFitBelow(b, populated, n, candidateCapacity)
        && results == found + ReachedBelow(keys, b, n) && |results| <= resultCapacity
      case CandidateCapacityExceeded => !CandidatesFit(b, populated, candidates, candidateCapacity)
      case ResultCapacityExceeded => |found + Reached(b)| > resultCapacity
      case _ => false
    }

    method AppendIfPopulated(b: Box3, lod: U8, found: set<ChunkKey>, candidates: nat)
      returns (status: IndexStatus, results: set<ChunkKey>, total: nat)
      requires Valid() && Bounds64(b) && lod < LEVELS && |found| <= resultCapacity && candidates <= candidateCapacity
      ensures Extent(lod) > 0
      ensures status == Ok || status == CandidateCapacityExceeded || status == ResultCapacityExceeded
      ensures status == CandidateCapacityExceeded ==>
        populated[lod] && (PlaneCandidates(b, lod) > candidateCapacity
                           || candidates + LevelCandidates(b, lod) > candidateCapacity)
      ensures status == ResultCapacityExceeded ==> |found + ReachedAt(keys, b, lod)| > resultCapacity
      ensures status == Ok ==>
        && total == candidates + (if populated[lod] then LevelCandidates(b, lod) else 0) <= candidateCapacity
        && (populated[lod] ==> PlaneCandidates(b, lod) <= candidateCapacity)
        && |results| <= resultCapacity
        && results == found + (if populated[lod] then ReachedAt(keys, b, lod) else {})
    {
      ExtentFacts(lod);
      results, total := found, candidates;
      if !populated[lod] {
        return Ok, results, total;
      }
      var next := CountLevel(b, lod, total);
      if next.None? {
        return CandidateCapacityExceeded, results, total;
      }
      total := next.value;
      var ok;
      ok, results := AppendLevel(b, lod, results);
      return if ok then Ok else ResultCapacityExceeded, results, total;
    }

    lemma StillStanding(b: Box3, found: set<ChunkKey>, candidates: nat, lod: U8, before: set<ChunkKey>, counted: nat,
                        results: set<ChunkKey>, total: nat)
      requires Valid() && Bounds64(b) && lod < LEVELS && Extent(lod) > 0
      requires Standing(b, found, candidates, lod, Ok, before, counted)
      requires total == counted + (if populated[lod] then LevelCandidates(b, lod) else 0) <= candidateCapacity
      requires populated[lod] ==> PlaneCandidates(b, lod) <= candidateCapacity
      requires |results| <= resultCapacity
      requires results == before + (if populated[lod] then ReachedAt(keys, b, lod) else {})
      ensures Standing(b, found, candidates, lod + 1, Ok, results, total)
    {
      ReachedGrows(keys, populated, b, lod);
    }

    lemma OutOfCandidates(b: Box3, found: set<ChunkKey>, candidates: nat, lod: U8, before: set<ChunkKey>, counted: nat)
      requires Valid() && Bounds64(b) && lod < LEVELS && Extent(lod) > 0 && populated[lod]
      requires Standing(b, found, candidates, lod, Ok, before, counted)
      requires PlaneCandidates(b, lod) > candidateCapacity || counted + LevelCandidates(b, lod) > candidateCapacity
      ensures !CandidatesFit(b, populated, candidates, candidateCapacity)
    {
      CandidatesGrow(b, populated, lod + 1, LEVELS, candidateCapacity);
    }

    lemma OutOfResults(b: Box3, found: set<ChunkKey>, candidates: nat, lod: U8, before: set<ChunkKey>, counted: nat)
      requires Valid() && Bounds64(b) && lod < LEVELS && Extent(lod) > 0
      requires Standing(b, found, candidates, lod, Ok, before, counted)
      requires |before + ReachedAt(keys, b, lod)| > resultCapacity
      ensures |found + Reached(b)| > resultCapacity
    {
      LargerThan(before + ReachedAt(keys, b, lod), found + Reached(b));
    }

    method AppendBounds(b: Box3, found: set<ChunkKey>, candidates: nat)
      returns (status: IndexStatus, results: set<ChunkKey>, total: nat)
      requires Valid() && Bounds64(b) && |found| <= resultCapacity && candidates <= candidateCapacity
      ensures status == InvalidInput <==> !ValidBounds(b)
      ensures status != InvalidInput ==> Standing(b, found, candidates, LEVELS, status, results, total)
    {
      status, results, total := Ok, found, candidates;
      if !ValidBounds(b) {
        return InvalidInput, results, total;
      }
      assert ReachedBelow(keys, b, 0) == {};
      for lod := 0 to LEVELS
        invariant Standing(b, found, candidates, lod, Ok, results, total)
      {
        ghost var before, counted := results, total;
        status, results, total := AppendIfPopulated(b, lod, results, total);
        if status == CandidateCapacityExceeded {
          OutOfCandidates(b, found, candidates, lod, before, counted);
          return;
        } else if status == ResultCapacityExceeded {
          OutOfResults(b, found, candidates, lod, before, counted);
          return;
        }
        StillStanding(b, found, candidates, lod, before, counted, results, total);
      }
      return Ok, results, total;
    }

    /** The results as one strictly sorted listing. */
    method SortedKeys(results: set<ChunkKey>) returns (output: seq<ChunkKey>)
      ensures Lists(output, results)
    {
      output := [];
      var rest := results;
      while rest != {}
        invariant rest <= results && Lists(output, results - rest)
        decreases rest
      {
        var key :| key in rest;
        output := Insert(key, output);
        rest := rest - {key};
      }
      assert results - rest == results;
    }

    method QueryBounds(b: Box3) returns (status: IndexStatus, output: seq<ChunkKey>)
      requires Valid() && Bounds64(b)
      ensures status == Ok <==>
        && ValidBounds(b) && CandidatesFit(b, populated, 0, candidateCapacity) && |Reached(b)| <= resultCapacity
      ensures status != Ok ==> output == []
      ensures status == Ok ==> Lists(output, set k | k in keys && (MayIntersectPage(k, b) || Spurious(k, b)))
      ensures status == Ok && (forall k :: k in keys ==> !Spurious(k, b)) ==>
        Lists(output, set k | k in keys && MayIntersectPage(k, b))
    {
      var results, total;
      status, results, total := AppendBounds(b, {}, 0);
      assert {} + Reached(b) == Reached(b);
      ReachedBelowAll(keys, b);
      if status != Ok {
        return status, [];
      }
      output := SortedKeys(results);
      ReachedExactly(b);
    }

    /** Check command i and note its sequence and id. */
    static method Admit(t: EditTransaction, i: nat, sequences: seq<bool>, ids: set<U128>)
      returns (ok: bool, sequences': seq<bool>, ids': set<U128>)
      requires i < |t.commands| == |sequences| && NotedBelow(t, i, sequences, ids)
      ensures ok <==> Orderly(t, i)
      ensures |sequences'| == |sequences| && (ok ==> NotedBelow(t, i + 1, sequences', ids'))
    {
      var c := t.commands[i];
      if !ValidCommand(c) || c.worldRevision != t.committedRevision || c.sequence >= |t.commands|
         || sequences[c.sequence] || c.id in ids {
        return false, sequences, ids;
      }
      return true, sequences[c.sequence := true], ids + {c.id};
    }

    /** Query command i and unite its keys with the results so far. */
    method AppendCommand(t: EditTransaction, i: nat, found: set<ChunkKey>, candidates: nat)
      returns (status: IndexStatus, results: set<ChunkKey>, total: nat)
      requires Valid() && i < |t.commands| && Orderly(t, i)
      requires |found| <= resultCapacity && found == ReachedByAny(keys, t.commands, i)
      requires candidates == CandidatesOf(t.commands, populated, i) && TransactionFits(t.commands, populated, i, candidateCapacity)
      ensures status in {Ok, CandidateCapacityExceeded, ResultCapacityExceeded}
      ensures status == Ok ==>
        && results == ReachedByAny(keys, t.commands, i + 1) && |results| <= resultCapacity
        && total == CandidatesOf(t.commands, populated, i + 1)
        && TransactionFits(t.commands, populated, i + 1, candidateCapacity)
      ensures status == CandidateCapacityExceeded ==> !TransactionFits(t.commands, populated, i + 1, candidateCapacity)
      ensures status == ResultCapacityExceeded ==> |ReachedByAny(keys, t.commands, i + 1)| > resultCapacity
    {
      var c := t.commands[i];
      ValidBoundsAreOrdered(c);
      hide ValidCommand, Orderly, ReachedByAny, CandidatesBelow, PlanesFitBelow, TransactionFits, CandidatesOf, Walked;
      status, results, total := AppendBounds(c.bounds, found, candidates);
      ReachedByOneMore(keys, t.commands, i);
      ReachedBelowAll(keys, c.bounds);
      OneMoreFits(t.commands, populated, i, candidateCapacity);
    }

    /** The first commands already exceed a capacity: the whole transaction does. */
    lemma ExceededForGood(t: EditTransaction, n: nat)
      requires n <= |t.commands| && |populated| == LEVELS
      ensures !TransactionFits(t.commands, populated, n, candidateCapacity) ==>
                !TransactionFits(t.commands, populated, |t.commands|, candidateCapacity)
      ensures |ReachedByAny(keys, t.commands, n)| <= |ReachedByAny(keys, t.commands, |t.commands|)|
    {
      if TransactionFits(t.commands, populated, |t.commands|, candidateCapacity) {
        FittingShrinks(t.commands, populated, n, |t.commands|, candidateCapacity);
      }
      LargerThan(ReachedByAny(keys, t.commands, n), ReachedByAny(keys, t.commands, |t.commands|));
    }

    /** Each command is queried on its own: candidates add up over the transaction, results are united. The query succeeds
        exactly for indexable transactions that stay within both capacities, and names a capacity only when it is exceeded. */
    method QueryTransaction(t: EditTransaction) returns (status: IndexStatus, output: seq<ChunkKey>)
      requires Valid()
      ensures status == Ok <==>
        && Indexable(t) && TransactionFits(t.commands, populated, |t.commands|, candidateCapacity)
        && |ReachedByAny(keys, t.commands, |t.commands|)| <= resultCapacity
      ensures status in {Ok, InvalidInput, CandidateCapacityExceeded, ResultCapacityExceeded}
      ensures status == InvalidInput ==> !Indexable(t)
      ensures status == CandidateCapacityExceeded ==> !TransactionFits(t.commands, populated, |t.commands|, candidateCapacity)
      ensures status == ResultCapacityExceeded ==> |ReachedByAny(keys, t.commands, |t.commands|)| > resultCapacity
      ensures status != Ok ==> output == []
      ensures status == Ok ==> Lists(output, ReachedByAny(keys, t.commands, |t.commands|))
    {
      if !ValidHeader(t) {
        return InvalidInput, [];
      }
      var results;
      status, results := UniteCommands(t);
      if status != Ok {
        return status, [];
      }
      hide Lists, Orderly, ReachedByAny, TransactionFits, ValidHeader;
      output := SortedKeys(results);
      return Ok, output;
    }

    /** The loop over the commands: their keys united, or why it stopped. */
    method UniteCommands(t: EditTransaction) returns (status: IndexStatus, results: set<ChunkKey>)
      requires Valid() && ValidHeader(t)
      ensures status in {Ok, InvalidInput, CandidateCapacityExceeded, ResultCapacityExceeded}
      ensures status == Ok ==>
        && OrderlyBelow(t, |t.commands|) && TransactionFits(t.commands, populated, |t.commands|, candidateCapacity)
        && results == ReachedByAny(keys, t.commands, |t.commands|) && |results| <= resultCapacity
      ensures status == InvalidInput ==> !OrderlyBelow(t, |t.commands|)
      ensures status == CandidateCapacityExceeded ==> !TransactionFits(t.commands, populated, |t.commands|, candidateCapacity)
      ensures status == ResultCapacityExceeded ==> |ReachedByAny(keys, t.commands, |t.commands|)| > resultCapacity
    {
      hide Orderly, OrderlyBelow, ReachedByAny, TransactionFits, CandidatesOf, NotedBelow, ValidHeader, ValidKey, HasLevel;
      var n := |t.commands|;
      var sequences := seq(n, i => false);
      var ids: set<U128> := {};
      var candidates: nat := 0;
      results := {};
      NothingReached(keys, t.commands);
      NothingNoted(t, populated, sequences, candidateCapacity);
      for i := 0 to n
        invariant |sequences| == n && |results| <= resultCapacity
        invariant OrderlyBelow(t, i) && NotedBelow(t, i, sequences, ids)
        invariant results == ReachedByAny(keys, t.commands, i)
        invariant candidates == CandidatesOf(t.commands, populated, i)
        invariant TransactionFits(t.commands, populated, i, candidateCapacity)
      {
        var admitted;
        admitted, sequences, ids := Admit(t, i, sequences, ids);
        if !admitted {
          DisorderStays(t, i, n);
          return InvalidInput, results;
        }
        OrderGrows(t, i);
        status, results, candidates := AppendCommand(t, i, results, candidates);
        if status != Ok {
          ExceededForGood(t, i + 1);
          return;
        }
      }
      return Ok, results;
    }

    lemma ReachedExactly(b: Box3)
      requires Valid() && Bounds64(b) && ValidBounds(b)
      ensures Reached(b) == set k | k in keys && (MayIntersectPage(k, b) || Spurious(k, b))
    {
      forall k | k in keys ensures Walked(k, b) <==> MayIntersectPage(k, b) || Spurious(k, b) {
        WalkIsExact(k, b);
      }
    }
  }

  /** Command i of the transaction is acceptable given those before it. */
  ghost predicate Orderly(t: EditTransaction, i: nat)
    requires i < |t.commands|
  {
    var c := t.commands[i];
    && ValidCommand(c) && c.worldRevision == t.committedRevision && c.sequence < |t.commands|
    && forall j :: 0 <= j < i ==> t.commands[j].sequence != c.sequence && t.commands[j].id != c.id
  }

  ghost predicate OrderlyBelow(t: EditTransaction, n: nat)
    requires n <= |t.commands|
  {
    n == 0 || (OrderlyBelow(t, n - 1) && Orderly(t, n - 1))
  }

  lemma NothingNoted(t: EditTransaction, populated: seq<bool>, sequences: seq<bool>, maximum: nat)
    requires |sequences| == |t.commands| && |populated| == LEVELS && forall v :: 0 <= v < |sequences| ==> !sequences[v]
    ensures OrderlyBelow(t, 0) && NotedBelow(t, 0, sequences, {})
    ensures CandidatesOf(t.commands, populated, 0) == 0 && TransactionFits(t.commands, populated, 0, maximum)
  {}

  lemma OrderGrows(t: EditTransaction, n: nat)
    requires n < |t.commands| && OrderlyBelow(t, n) && Orderly(t, n)
    ensures OrderlyBelow(t, n + 1)
  {}

  lemma {:induction false} OrderlyAt(t: EditTransaction, n: nat, i: nat)
    requires i < n <= |t.commands| && OrderlyBelow(t, n)
    ensures Orderly(t, i)
    decreases n
  {
    if i < n - 1 {
      OrderlyAt(t, n - 1, i);
    }
  }

  lemma {:induction false} DisorderStays(t: EditTransaction, i: nat, n: nat)
    requires i < n <= |t.commands| && !Orderly(t, i)
    ensures !OrderlyBelow(t, n)
    decreases n
  {
    if i < n - 1 {
      DisorderStays(t, i, n - 1);
    }
  }

  /** A transaction the index accepts: valid identity, each command valid, sequences and ids all different. */
  ghost predicate Indexable(t: EditTransaction) {
    ValidHeader(t) && OrderlyBelow(t, |t.commands|)
  }

  ghost predicate NotedBelow(t: EditTransaction, n: nat, sequences: seq<bool>, ids: set<U128>)
    requires n <= |t.commands| == |sequences|
  {
    && (forall v :: 0 <= v < |sequences| ==> (sequences[v] <==> exists j :: 0 <= j < n && t.commands[j].sequence == v))
    && (forall v :: v in ids <==> exists j :: 0 <= j < n && t.commands[j].id == v)
  }

  ghost predicate WalkedByAny(k: ChunkKey, commands: seq<EditCommand>, n: nat)
    requires n <= |commands|
  {
    exists j :: 0 <= j < n && ValidCommand(commands[j])
                && (MayIntersectPage(k, commands[j].bounds) || Spurious(k, commands[j].bounds))
  }

  ghost function ReachedByAny(keys: set<ChunkKey>, commands: seq<EditCommand>, n: nat): set<ChunkKey>
    requires n <= |commands|
  {
    set k | k in keys && WalkedByAny(k, commands, n)
  }

  lemma NothingReached(keys: set<ChunkKey>, commands: seq<EditCommand>)
    ensures ReachedByAny(keys, commands, 0) == {}
  {}

  lemma ReachedByOneMore(keys: set<ChunkKey>, commands: seq<EditCommand>, n: nat)
    requires n < |commands| && ValidCommand(commands[n]) && forall k :: k in keys ==> ValidKey(k)
    ensures Bounds64(commands[n].bounds) && ValidBounds(commands[n].bounds)
    ensures ReachedByAny(keys, commands, n + 1)
         == ReachedByAny(keys, commands, n) + set k | k in keys && Walked(k, commands[n].bounds)
  {
    ValidBoundsAreOrdered(commands[n]);
    forall k | k in keys
      ensures WalkedByAny(k, commands, n + 1) <==> WalkedByAny(k, commands, n) || Walked(k, commands[n].bounds)
    {
      WalkIsExact(k, commands[n].bounds);
    }
  }

  /** Far out on one axis and at the origin on the others. */
  const FAR_BOUNDS: Box3 :=
    Box3(GridPoint(0x4000_0000_0000_0000, 0, 0), GridPoint(0x4000_0000_0000_0000, 0, 0))

  /** The result is not always exact: an origin chunk is returned for bounds that lie outside every 32-bit key. */
  lemma FarBoundsReachTheOriginChunk(key: ChunkKey)
    requires key.x == 0 && key.y == 0 && key.z == 0 && key.lod == 0
    ensures Bounds64(FAR_BOUNDS) && ValidBounds(FAR_BOUNDS)
    ensures Walked(key, FAR_BOUNDS) && !MayIntersectPage(key, FAR_BOUNDS)
  {
    FinestPage(key);
    KeyOrigin(I32_MAX, key.lod);
    ExtentFacts(key.lod);
    assert Extent(key.lod) == 16;
    MeetsByAxis(key, FAR_BOUNDS);
    WalkIsExact(key, FAR_BOUNDS);
  }

  ghost function KeysBefore(keys: seq<ChunkKey>, n: nat): set<ChunkKey>
    requires n <= |keys|
  {
    set k | k in keys[..n]
  }

  lemma KeysBeforeGrow(keys: seq<ChunkKey>, n: nat)
    requires n < |keys|
    ensures KeysBefore(keys, n + 1) == KeysBefore(keys, n) + {keys[n]}
  {
    assert keys[..n + 1] == keys[..n] + [keys[n]];
  }

  /** The key is valid and repeats no earlier one. */
  ghost predicate ValidAndNew(keys: seq<ChunkKey>, i: nat)
    requires i < |keys|
  {
    ValidKey(keys[i]) && keys[i] !in KeysBefore(keys, i)
  }

  ghost function Slab(keys: set<ChunkKey>, xs: AxisRange, ys: AxisRange, zs: AxisRange, lod: U8): set<ChunkKey> {
    set k | k in keys && k.lod == lod && zs.Walked(k.z) && ys.Walked(k.y) && xs.Walked(k.x)
  }

  lemma ReachedIsASlab(keys: set<ChunkKey>, b: Box3, lod: U8)
    requires Bounds64(b) && Extent(lod) > 0
    ensures ReachedAt(keys, b, lod)
         == Slab(keys, KeyRange(b.minimum.x, b.maximum.x, lod), KeyRange(b.minimum.y, b.maximum.y, lod),
                 KeyRange(b.minimum.z, b.maximum.z, lod), lod)
  {}

  ghost function Row(keys: set<ChunkKey>, xs: AxisRange, y: int, z: int, lod: U8): set<ChunkKey> {
    set k | k in keys && k.lod == lod && k.z == z && k.y == y && xs.Walked(k.x)
  }

  ghost function Plane(keys: set<ChunkKey>, xs: AxisRange, ys: AxisRange, z: int, lod: U8): set<ChunkKey> {
    set k | k in keys && k.lod == lod && k.z == z && ys.Walked(k.y) && xs.Walked(k.x)
  }

  ghost function ReachedAt(keys: set<ChunkKey>, b: Box3, lod: U8): set<ChunkKey>
    requires Bounds64(b)
  {
    set k | k in keys && k.lod == lod && Walked(k, b)
  }

  ghost function ReachedBelow(keys: set<ChunkKey>, b: Box3, n: nat): set<ChunkKey>
    requires Bounds64(b)
  {
    set k | k in keys && k.lod < n && Walked(k, b)
  }

  lemma ReachedGrows(keys: set<ChunkKey>, populated: seq<bool>, b: Box3, n: nat)
    requires Bounds64(b) && n < LEVELS && LevelsOf(populated, keys)
    ensures ReachedBelow(keys, b, n + 1) == ReachedBelow(keys, b, n) + ReachedAt(keys, b, n)
    ensures !populated[n] ==> ReachedBelow(keys, b, n + 1) == ReachedBelow(keys, b, n)
  {
    assert !populated[n] ==> forall k :: k in keys ==> k.lod != n;
  }

  lemma ReachedBelowAll(keys: set<ChunkKey>, b: Box3)
    requires Bounds64(b) && forall k :: k in keys ==> ValidKey(k)
    ensures ReachedBelow(keys, b, LEVELS) == set k | k in keys && Walked(k, b)
  {}

  ghost predicate HasLevel(keys: set<ChunkKey>, lod: int) {
    exists k :: k in keys && k.lod == lod
  }

  ghost predicate LevelsOf(levels: seq<bool>, keys: set<ChunkKey>) {
    |levels| == LEVELS && forall lod :: 0 <= lod < LEVELS ==> (levels[lod] <==> HasLevel(keys, lod))
  }

  lemma LargerThan(a: set<ChunkKey>, b: set<ChunkKey>)
    requires a <= b
    ensures |a| <= |b|
  {
    assert b == a + (b - a);
    assert |b| == |a| + |b - a|;
  }

  lemma LevelsAfterInsert(keys: set<ChunkKey>, levels: seq<bool>, key: ChunkKey)
    requires ValidKey(key) && LevelsOf(levels, keys)
    ensures LevelsOf(levels[key.lod := true], keys + {key})
  {
    forall lod | 0 <= lod < LEVELS
      ensures levels[key.lod := true][lod] <==> HasLevel(keys + {key}, lod)
    {
      if lod == key.lod {
        assert key in keys + {key};
      } else if levels[lod] {
        var k :| k in keys && k.lod == lod;
        assert k in keys + {key};
      }
    }
  }
}
