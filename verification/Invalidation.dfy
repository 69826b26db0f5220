/** Spatial queries against page replay: a page the index does not return is a page the replay does not touch. */
module Invalidation {
  import opened ChunkKeys
  import opened EditCommands
  import opened EditTransactions
  import opened SampleEdits
  import opened PageEdits
  import opened PageProperties
  import opened TransactionFiles
  import opened TransactionRoundTrip
  import Index = EditSpatialIndexes

  /** After a successful query, replaying the transaction's commands changes nothing but the revision and sequence
      on an indexed page outside the result: samples, shift flag, hull and counters all stay. */
  lemma InvalidationIsSound(ar: Arithmetic, st: PageState, keys: set<ChunkKey>, t: EditTransaction,
                            result: seq<ChunkKey>, replayed: seq<EditCommand>)
    requires Index.Indexable(t) && Index.Lists(result, Index.ReachedByAny(keys, t.commands, |t.commands|))
    requires st.key in keys && st.key !in result
    requires forall c :: c in replayed ==> c in t.commands
    ensures
      var end := Replay(ar, st, replayed).state;
      end == st.(revision := end.revision, nextSequence := end.nextSequence)
  {
    forall c | c in replayed ensures !MayIntersectPage(st.key, c.bounds) {
      var i :| 0 <= i < |t.commands| && t.commands[i] == c;
      Index.OrderlyAt(t, |t.commands|, i);
      assert !Index.WalkedByAny(st.key, t.commands, |t.commands|);
    }
    UnreachedPageIsUntouched(ar, st, replayed);
  }

  // ---- What can be queried is what can be written ----

  ghost predicate OwnSequences(s: seq<EditCommand>) {
    forall i, j :: 0 <= i < j < |s| ==> s[i].sequence != s[j].sequence
  }

  lemma TwoPlaces(s: seq<EditCommand>, i: nat, j: nat)
    requires i < j < |s| && s[i] == s[j]
    ensures multiset(s)[s[i]] >= 2
  {
    assert s == s[..j] + s[j..];
    assert s[i] in s[..j] && s[j] in s[j..];
  }

  lemma {:induction false} OnePlace(s: seq<EditCommand>, x: EditCommand)
    requires OwnSequences(s)
    ensures multiset(s)[x] <= 1
    decreases |s|
  {
    if |s| > 0 {
      var n := |s| - 1;
      assert s == s[..n] + [s[n]];
      OnePlace(s[..n], x);
      assert s[n] !in s[..n];
    }
  }

  /** Rearranging keeps sequences apart. */
  lemma RearrangedApart(a: seq<EditCommand>, b: seq<EditCommand>)
    requires multiset(a) == multiset(b) && OwnSequences(a)
    ensures OwnSequences(b)
  {
    forall i, j | 0 <= i < j < |b| ensures b[i].sequence != b[j].sequence {
      assert b[i] in multiset(b) && b[j] in multiset(b);
      var k :| 0 <= k < |a| && a[k] == b[i];
      var l :| 0 <= l < |a| && a[l] == b[j];
      OnePlace(a, b[i]);
      if b[i] == b[j] { TwoPlaces(b, i, j); }
    }
  }

  lemma {:induction false} SequencesReachTheirPlace(s: seq<EditCommand>, i: nat)
    requires OrderedBySequence(s) && OwnSequences(s) && i < |s|
    ensures s[i].sequence >= i
    decreases i
  {
    if i > 0 {
      SequencesReachTheirPlace(s, i - 1);
    }
  }

  lemma {:induction false} SequencesLeaveRoom(s: seq<EditCommand>, i: nat)
    requires OrderedBySequence(s) && OwnSequences(s) && i < |s|
    ensures s[|s| - 1].sequence - s[i].sequence >= |s| - 1 - i
    decreases |s| - i
  {
    if i < |s| - 1 {
      SequencesLeaveRoom(s, i + 1);
    }
  }

  /** All commands valid and of the committed revision, with sequences below their number. */
  ghost predicate EachFits(t: EditTransaction, commands: seq<EditCommand>) {
    forall c :: c in commands ==> ValidCommand(c) && c.worldRevision == t.committedRevision && c.sequence < |t.commands|
  }

  lemma OrderlyMeans(t: EditTransaction)
    ensures Index.OrderlyBelow(t, |t.commands|)
       <==> EachFits(t, t.commands) && OwnSequences(t.commands) && DistinctIds(t.commands)
  {
    hide ValidCommand;
    if Index.OrderlyBelow(t, |t.commands|) {
      forall i | 0 <= i < |t.commands| ensures Index.Orderly(t, i) {
        Index.OrderlyAt(t, |t.commands|, i);
      }
      forall i, j | 0 <= i < j < |t.commands|
        ensures t.commands[i].sequence != t.commands[j].sequence && t.commands[i].id != t.commands[j].id
      {
        assert Index.Orderly(t, j);
      }
      forall c | c in t.commands
        ensures ValidCommand(c) && c.worldRevision == t.committedRevision && c.sequence < |t.commands|
      {
        var i :| 0 <= i < |t.commands| && t.commands[i] == c;
        assert Index.Orderly(t, i);
      }
    } else {
      var i := FirstDisorder(t, |t.commands|);
      assert t.commands[i] in t.commands;
    }
  }

  lemma {:induction false} FirstDisorder(t: EditTransaction, n: nat) returns (i: nat)
    requires n <= |t.commands| && !Index.OrderlyBelow(t, n)
    ensures i < n && !Index.Orderly(t, i)
    decreases n
  {
    if !Index.Orderly(t, n - 1) {
      i := n - 1;
    } else {
      i := FirstDisorder(t, n - 1);
    }
  }

  lemma FittingIsCanonical(t: EditTransaction, s: seq<EditCommand>)
    requires multiset(s) == multiset(t.commands) && |s| == |t.commands| && OrderedBySequence(s)
    ensures Canonical(s, t.committedRevision)
       <==> EachFits(t, t.commands) && OwnSequences(t.commands) && DistinctIds(t.commands)
  {
    hide ValidCommand;
    forall c ensures c in s <==> c in t.commands {
      assert c in multiset(s) <==> c in multiset(t.commands);
    }
    if Canonical(s, t.committedRevision) {
      RearrangedApart(s, t.commands);
      IdsStayApart(s, t.commands);
    }
    if EachFits(t, t.commands) && OwnSequences(t.commands) && DistinctIds(t.commands) {
      RearrangedApart(t.commands, s);
      IdsStayApart(t.commands, s);
      forall i | 0 <= i < |s| ensures s[i].sequence == i && s[i] in t.commands {
        SequencesReachTheirPlace(s, i);
        SequencesLeaveRoom(s, i);
        assert s[i] in s && s[|s| - 1] in s;
      }
    }
  }

  lemma IdsStayApart(a: seq<EditCommand>, b: seq<EditCommand>)
    requires multiset(a) == multiset(b) && OwnSequences(a) && DistinctIds(a)
    ensures DistinctIds(b)
  {
    RearrangedApart(a, b);
    forall i, j | 0 <= i < j < |b| ensures b[i].id != b[j].id {
      assert b[i] in multiset(a) && b[j] in multiset(a);
      var k :| 0 <= k < |a| && a[k] == b[i];
      var l :| 0 <= l < |a| && a[l] == b[j];
    }
  }

  /** The index accepts exactly the transactions that can be written. */
  lemma IndexableIsWritable(t: EditTransaction)
    ensures Index.Indexable(t) <==> Writable(t)
  {
    OrderlyMeans(t);
    SortIsAPermutation(t.commands);
    FittingIsCanonical(t, SortBySequence(t.commands));
    hide Canonical, EachFits, OwnSequences, DistinctIds, Index.OrderlyBelow;
  }
}
