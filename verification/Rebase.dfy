/** Moving an authored transaction onto another revision: derived identities, and what the result is worth. */
module Rebase {
  import opened Numbers
  import opened EditCommands
  import opened EditTransactions
  import opened TransactionFiles
  import opened TransactionRoundTrip

  // ---- Exclusive or, bit by bit ----

  function Xor(a: nat, b: nat): nat
    decreases a + b
  {
    if a == 0 && b == 0 then 0 else (a + b) % 2 + 2 * Xor(a / 2, b / 2)
  }

  lemma Halves(digit: nat, x: nat)
    requires digit < 2
    ensures (digit + 2 * x) % 2 == digit && (digit + 2 * x) / 2 == x
  {}

  lemma XorDigits(a: nat, b: nat)
    ensures Xor(a, b) % 2 == (a + b) % 2 && Xor(a, b) / 2 == Xor(a / 2, b / 2)
  {
    Halves((a + b) % 2, Xor(a / 2, b / 2));
  }

  lemma {:induction false} XorUndoesItself(a: nat, b: nat)
    ensures Xor(Xor(a, b), b) == a
    decreases a + b
  {
    if a > 0 || b > 0 {
      XorUndoesItself(a / 2, b / 2);
      XorDigits(a, b);
      XorDigits(Xor(a, b), b);
      Parity(a, b, Xor(a, b));
    }
  }

  lemma Parity(a: nat, b: nat, x: nat)
    requires x % 2 == (a + b) % 2
    ensures (x + b) % 2 == a % 2
  {}

  lemma {:induction false} XorVanishes(a: nat)
    ensures Xor(a, a) == 0
    decreases a
  {
    if a > 0 {
      XorVanishes(a / 2);
    }
  }

  lemma XorSeparates(a: nat, b: nat, key: nat)
    ensures Xor(a, key) == Xor(b, key) <==> a == b
  {
    XorUndoesItself(a, key);
    XorUndoesItself(b, key);
  }

  function PowerOfTwo(bits: nat): nat {
    if bits == 0 then 1 else 2 * PowerOfTwo(bits - 1)
  }

  lemma {:induction false} XorKeepsWidth(a: nat, b: nat, bits: nat)
    requires a < PowerOfTwo(bits) && b < PowerOfTwo(bits)
    ensures Xor(a, b) < PowerOfTwo(bits)
    decreases bits
  {
    if bits > 0 {
      XorKeepsWidth(a / 2, b / 2, bits - 1);
    }
  }

  lemma SixtyFourBits()
    ensures PowerOfTwo(64) == U64_COUNT
  {
    assert PowerOfTwo(4) == 16;
    PowerSplits(4, 4);
    PowerSplits(8, 8);
    PowerSplits(16, 16);
    PowerSplits(32, 32);
  }

  lemma {:induction false} PowerSplits(a: nat, b: nat)
    ensures PowerOfTwo(a + b) == PowerOfTwo(a) * PowerOfTwo(b)
    decreases b
  {
    if b > 0 {
      PowerSplits(a, b - 1);
      assert a + b - 1 == a + (b - 1);
      assert 2 * (PowerOfTwo(a) * PowerOfTwo(b - 1)) == PowerOfTwo(a) * (2 * PowerOfTwo(b - 1));
    }
  }

  function Xor64(a: U64, b: U64): U64 {
    SixtyFourBits();
    XorKeepsWidth(a, b, 64);
    Xor(a, b)
  }

  // ---- Derived identities ----

  const TRANSACTION_KEY: U64 := 0x5754_5458_4944_3031
  const REVISION_KEY: U64 := 0x4544_4954_5452_4E31
  const COMMAND_KEY: U64 := 0x5754_434D_4449_4431
  const COMMAND_MARK: U32 := 0x3144_4D43

  function TransactionId(source: U64, committed: U64): U128 {
    Xor64(source, TRANSACTION_KEY) + U64_COUNT * Xor64(committed, REVISION_KEY)
  }

  function CommandId(committed: U64, sequence: U32): U128 {
    Xor64(committed, COMMAND_KEY) + U64_COUNT * (sequence + U32_COUNT * COMMAND_MARK)
  }

  lemma TwoWords(a: U64, high: nat, b: U64, otherHigh: nat)
    ensures a + U64_COUNT * high == b + U64_COUNT * otherHigh <==> a == b && high == otherHigh
  {}

  lemma TransactionIdsAreExact(source: U64, committed: U64, otherSource: U64, otherCommitted: U64)
    ensures TransactionId(source, committed) == TransactionId(otherSource, otherCommitted)
       <==> source == otherSource && committed == otherCommitted
    ensures TransactionId(source, committed) == 0 <==> source == TRANSACTION_KEY && committed == REVISION_KEY
  {
    XorSeparates(source, otherSource, TRANSACTION_KEY);
    XorSeparates(committed, otherCommitted, REVISION_KEY);
    XorVanishes(TRANSACTION_KEY);
    XorVanishes(REVISION_KEY);
    XorSeparates(source, TRANSACTION_KEY, TRANSACTION_KEY);
    XorSeparates(committed, REVISION_KEY, REVISION_KEY);
    hide Xor;
  }

  lemma CommandIdsAreExact(committed: U64, sequence: U32, otherCommitted: U64, otherSequence: U32)
    ensures CommandId(committed, sequence) != 0
    ensures CommandId(committed, sequence) == CommandId(otherCommitted, otherSequence)
       <==> committed == otherCommitted && sequence == otherSequence
  {
    XorSeparates(committed, otherCommitted, COMMAND_KEY);
    TwoWords(Xor64(committed, COMMAND_KEY), sequence + U32_COUNT * COMMAND_MARK,
             Xor64(otherCommitted, COMMAND_KEY), otherSequence + U32_COUNT * COMMAND_MARK);
    hide Xor;
  }

  // ---- Rebasing ----

  function RebasedCommand(c: EditCommand, index: U32, revision: U64): EditCommand {
    c.(sequence := index, worldRevision := revision, id := CommandId(revision, index))
  }

  function RebasedCommands(commands: seq<EditCommand>, revision: U64): (r: seq<EditCommand>)
    requires |commands| <= MAXIMUM_COMMAND_COUNT
    ensures |r| == |commands|
  {
    seq(|commands|, i requires 0 <= i < |commands| => RebasedCommand(commands[i], i, revision))
  }

  predicate Rebasable(t: EditTransaction, base: U64) {
    base != U64_MAX && 0 < |t.commands| <= MAXIMUM_COMMAND_COUNT
  }

  function Rebased(t: EditTransaction, base: U64): EditTransaction
    requires Rebasable(t, base)
  {
    t.(baseRevision := base, committedRevision := base + 1, id := TransactionId(t.sourceRevision, base + 1),
       commands := RebasedCommands(t.commands, base + 1))
  }

  /** Rewrites the commands one after another; refuses before changing anything. */
  method RebaseTransaction(t: EditTransaction, base: U64) returns (r: EditTransaction, ok: bool)
    ensures ok <==> Rebasable(t, base)
    ensures r == if ok then Rebased(t, base) else t
  {
    if base == U64_MAX || |t.commands| == 0 || |t.commands| > MAXIMUM_COMMAND_COUNT {
      return t, false;
    }
    hide Xor64, CommandId, TransactionId;
    r := t.(baseRevision := base, committedRevision := base + 1, id := TransactionId(t.sourceRevision, base + 1));
    for index := 0 to |t.commands|
      invariant r == t.(baseRevision := base, committedRevision := base + 1, commands := r.commands,
                        id := TransactionId(t.sourceRevision, base + 1))
      invariant r.commands == RebasedCommands(t.commands, base + 1)[..index] + t.commands[index..]
    {
      r := r.(commands := r.commands[index := RebasedCommand(r.commands[index], index, base + 1)]);
    }
    return r, true;
  }

  /** Rebasing replaces the earlier revision completely: only the last base matters. */
  lemma LastRebaseWins(t: EditTransaction, first: U64, second: U64)
    requires Rebasable(t, first) && Rebasable(t, second)
    ensures Rebasable(Rebased(t, first), second) && Rebased(Rebased(t, first), second) == Rebased(t, second)
  {
    hide CommandId, TransactionId;
  }

  /** The command would be valid under some identity. */
  predicate ValidShape(c: EditCommand) {
    ValidCommand(c.(id := 1))
  }

  lemma RebasedCommandValidity(c: EditCommand, index: U32, revision: U64)
    ensures ValidCommand(RebasedCommand(c, index, revision)) <==> ValidShape(c)
  {
    CommandIdsAreExact(revision, index, revision, index);
    hide SphereBounds, BoxBounds, CommandId;
  }

  lemma RebasedCommandsAreCanonical(commands: seq<EditCommand>, revision: U64)
    requires |commands| <= MAXIMUM_COMMAND_COUNT
    ensures Canonical(RebasedCommands(commands, revision), revision) <==> forall c :: c in commands ==> ValidShape(c)
    ensures OrderedBySequence(RebasedCommands(commands, revision)) && StrictBySequence(RebasedCommands(commands, revision))
  {
    var r := RebasedCommands(commands, revision);
    forall i | 0 <= i < |commands| ensures ValidCommand(r[i]) <==> ValidShape(commands[i]) {
      RebasedCommandValidity(commands[i], i, revision);
    }
    forall i, j | 0 <= i < j < |commands| ensures r[i].id != r[j].id {
      CommandIdsAreExact(revision, i, revision, j);
    }
    hide ValidCommand, ValidShape, CommandId;
  }

  /** A rebased transaction can be written exactly when its commands are valid but for their identities and the derived
      transaction identity is not the reserved zero, which one pair of revisions produces. */
  lemma RebasedIsWritable(t: EditTransaction, base: U64)
    requires Rebasable(t, base)
    ensures Writable(Rebased(t, base))
       <==> (forall c :: c in t.commands ==> ValidShape(c))
            && !(t.sourceRevision == TRANSACTION_KEY && base + 1 == REVISION_KEY)
  {
    hide ValidShape, ValidCommand, CommandId, TransactionId, Canonical, SortBySequence;
    var r := Rebased(t, base);
    TransactionIdsAreExact(t.sourceRevision, base + 1, 0, 0);
    RebasedCommandsAreCanonical(t.commands, base + 1);
    SortIsAPermutation(r.commands);
    StrictOrderIsUnique(r.commands, SortBySequence(r.commands));
  }
}
