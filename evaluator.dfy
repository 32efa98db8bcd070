// The guess evaluator `check_word`: two passes over a working copy of the
// target word, first marking exact matches, then letters found elsewhere.

module Evaluator {
  import opened Settings

  /** One entry of the working copy of the target: a letter still available, or
    * one that a mark has already used up (the source overwrites it with None). */
  datatype Slot = Letter(c: char) | Taken

  /** How many entries of a working copy offer letter c. */
  function Offers(s: seq<Slot>, c: char): nat {
    multiset(s)[Letter(c)]
  }

  /** Two working copies that split the target position by position offer,
    * together, each letter as often as the target holds it. */
  lemma {:induction false} OffersSplit(a: seq<Slot>, b: seq<Slot>, t: string, c: char)
    requires |a| == |b| == |t|
    requires forall i :: 0 <= i < |t| ==>
      (a[i] == Letter(t[i]) && b[i] == Taken) || (a[i] == Taken && b[i] == Letter(t[i]))
    ensures Offers(a, c) + Offers(b, c) == multiset(t)[c]
  {
    if t != [] {
      assert (a[0] == Letter(t[0]) && b[0] == Taken) || (a[0] == Taken && b[0] == Letter(t[0]));
      OffersSplit(a[1..], b[1..], t[1..], c);
      assert a == [a[0]] + a[1..];
      assert b == [b[0]] + b[1..];
      assert t == [t[0]] + t[1..];
      assert Offers(a, c) == (if a[0] == Letter(c) then 1 else 0) + Offers(a[1..], c);
      assert Offers(b, c) == (if b[0] == Letter(c) then 1 else 0) + Offers(b[1..], c);
      assert multiset(t)[c] == (if t[0] == c then 1 else 0) + multiset(t[1..])[c];
    }
  }

  /** `list.index`: the leftmost entry offering letter c. */
  function IndexOf(s: seq<Slot>, c: char): (k: nat)
    requires Letter(c) in s
    ensures k < |s| && s[k] == Letter(c)
    ensures forall j :: 0 <= j < k ==> s[j] != Letter(c)
  {
    if s[0] == Letter(c) then 0 else 1 + IndexOf(s[1..], c)
  }

  /** Marks after the first pass: CORRECT where the letters agree, EMPTY elsewhere. */
  function ExactMarks(g: string, t: string): (r: seq<int>)
    requires |g| == |t|
    ensures |r| == |g|
  {
    seq(|g|, i requires 0 <= i < |g| => if g[i] == t[i] then CORRECT else EMPTY)
  }

  /** The working copy after the first pass: exact matches used up. */
  function Unconsumed(g: string, t: string): (r: seq<Slot>)
    requires |g| == |t|
    ensures |r| == |t|
  {
    seq(|t|, i requires 0 <= i < |t| => if g[i] == t[i] then Taken else Letter(t[i]))
  }

  datatype PassState = PassState(marks: seq<int>, pool: seq<Slot>)

  /** The second pass from position i on: a position not already CORRECT whose
    * letter is still offered becomes PRESENT and uses up the leftmost offer. */
  function SecondPass(g: string, marks: seq<int>, pool: seq<Slot>, i: nat): (r: PassState)
    requires |marks| == |g| && i <= |g|
    ensures |r.marks| == |marks| && |r.pool| == |pool|
    decreases |g| - i
  {
    if i == |g| then PassState(marks, pool)
    else if marks[i] != CORRECT && Letter(g[i]) in pool then
      SecondPass(g, marks[i := PRESENT], pool[IndexOf(pool, g[i]) := Taken], i + 1)
    else
      SecondPass(g, marks, pool, i + 1)
  }

  /** The feedback `check_word` returns for guess g against target t. */
  function Evaluation(g: string, t: string): (r: seq<int>)
    requires |g| == |t|
    ensures |r| == |g|
  {
    SecondPass(g, ExactMarks(g, t), Unconsumed(g, t), 0).marks
  }

  /** The guess letters a feedback row accounts for (marked PRESENT or CORRECT);
    * here `Taken` stands for a guess position the row leaves unmarked. */
  function Marked(g: string, r: seq<int>): seq<Slot>
    requires |r| == |g|
  {
    seq(|g|, i requires 0 <= i < |g| =>
      if r[i] == PRESENT || r[i] == CORRECT then Letter(g[i]) else Taken)
  }

  /** How many positions holding letter c a feedback row marks PRESENT or CORRECT. */
  function MatchedCount(g: string, r: seq<int>, c: char): nat
    requires |r| == |g|
  {
    Offers(Marked(g, r), c)
  }

  /** Marking an unmarked position PRESENT accounts for one more copy of its letter. */
  lemma MatchedMark(g: string, r: seq<int>, i: nat, c: char)
    requires |r| == |g| && i < |g| && r[i] == EMPTY
    ensures MatchedCount(g, r[i := PRESENT], c) == MatchedCount(g, r, c) + (if g[i] == c then 1 else 0)
  {
    assert Marked(g, r[i := PRESENT]) == Marked(g, r)[i := Letter(g[i])];
  }

  /** Using up an offered letter removes one offer of it. */
  lemma OffersTake(pool: seq<Slot>, d: char, c: char)
    requires Letter(d) in pool
    ensures Offers(pool[IndexOf(pool, d) := Taken], c) + (if d == c then 1 else 0) == Offers(pool, c)
  {
  }

  /** `all(f == 3 for f in row)`. */
  predicate AllCorrect(row: seq<int>) {
    forall k :: 0 <= k < |row| ==> row[k] == CORRECT
  }

  /** Positions from i on still carry first-pass marks only. */
  predicate Unvisited(marks: seq<int>, i: nat) {
    forall j :: i <= j < |marks| ==> marks[j] == EMPTY || marks[j] == CORRECT
  }

  // ---------------------------------------------------------------------
  // Facts about the second pass, each by induction on the positions left.

  /** The second pass only turns positions from i on that are not CORRECT into
    * PRESENT, and only uses up entries of the working copy. */
  lemma {:induction false} SecondPassFrame(g: string, marks: seq<int>, pool: seq<Slot>, i: nat)
    requires |marks| == |g| && i <= |g|
    ensures var s := SecondPass(g, marks, pool, i);
      (forall j :: 0 <= j < |g| ==>
        s.marks[j] == marks[j] || (i <= j && marks[j] != CORRECT && s.marks[j] == PRESENT)) &&
      (forall k :: 0 <= k < |pool| ==> s.pool[k] == pool[k] || s.pool[k] == Taken)
    decreases |g| - i
  {
    if i < |g| {
      if marks[i] != CORRECT && Letter(g[i]) in pool {
        SecondPassFrame(g, marks[i := PRESENT], pool[IndexOf(pool, g[i]) := Taken], i + 1);
      } else {
        SecondPassFrame(g, marks, pool, i + 1);
      }
    }
  }

  /** Each PRESENT mark is paid for by one entry of the working copy: for every
    * letter, marked copies plus offered copies stay the same. */
  lemma {:induction false} SecondPassConserves(g: string, marks: seq<int>, pool: seq<Slot>, i: nat, c: char)
    requires |marks| == |g| && i <= |g| && Unvisited(marks, i)
    ensures var s := SecondPass(g, marks, pool, i);
      MatchedCount(g, s.marks, c) + Offers(s.pool, c) == MatchedCount(g, marks, c) + Offers(pool, c)
    decreases |g| - i
  {
    if i < |g| {
      if marks[i] != CORRECT && Letter(g[i]) in pool {
        var m2 := marks[i := PRESENT];
        var p2 := pool[IndexOf(pool, g[i]) := Taken];
        SecondPassConserves(g, m2, p2, i + 1, c);
        assert SecondPass(g, marks, pool, i) == SecondPass(g, m2, p2, i + 1);
        MatchedMark(g, marks, i, c);
        OffersTake(pool, g[i], c);
      } else {
        SecondPassConserves(g, marks, pool, i + 1, c);
        assert SecondPass(g, marks, pool, i) == SecondPass(g, marks, pool, i + 1);
      }
    }
  }

  /** A PRESENT mark set from position i on names a letter the working copy
    * offered at position i. */
  lemma {:induction false} SecondPassPresent(g: string, marks: seq<int>, pool: seq<Slot>, i: nat)
    requires |marks| == |g| && i <= |g| && Unvisited(marks, i)
    ensures var s := SecondPass(g, marks, pool, i);
      forall j :: i <= j < |g| && s.marks[j] == PRESENT ==> Letter(g[j]) in pool
    decreases |g| - i
  {
    if i < |g| {
      var s := SecondPass(g, marks, pool, i);
      if marks[i] != CORRECT && Letter(g[i]) in pool {
        var k := IndexOf(pool, g[i]);
        var p2 := pool[k := Taken];
        SecondPassPresent(g, marks[i := PRESENT], p2, i + 1);
        forall j | i < j < |g| && s.marks[j] == PRESENT
          ensures Letter(g[j]) in pool
        {
          var m :| 0 <= m < |p2| && p2[m] == Letter(g[j]);
          assert pool[m] == Letter(g[j]);
        }
      } else {
        SecondPassPresent(g, marks, pool, i + 1);
        SecondPassFrame(g, marks, pool, i + 1);
      }
    }
  }

  /** A position left EMPTY names a letter the working copy no longer offers
    * at the end. */
  lemma {:induction false} SecondPassExhausts(g: string, marks: seq<int>, pool: seq<Slot>, i: nat)
    requires |marks| == |g| && i <= |g| && Unvisited(marks, i)
    ensures var s := SecondPass(g, marks, pool, i);
      forall j :: i <= j < |g| && s.marks[j] == EMPTY ==> Letter(g[j]) !in s.pool
    decreases |g| - i
  {
    if i < |g| {
      var s := SecondPass(g, marks, pool, i);
      var m2, p2 := marks, pool;
      if marks[i] != CORRECT && Letter(g[i]) in pool {
        m2 := marks[i := PRESENT];
        p2 := pool[IndexOf(pool, g[i]) := Taken];
      }
      assert s == SecondPass(g, m2, p2, i + 1);
      SecondPassExhausts(g, m2, p2, i + 1);
      SecondPassFrame(g, m2, p2, i + 1);
      if s.marks[i] == EMPTY {
        assert Letter(g[i]) !in pool;
        forall k | 0 <= k < |s.pool|
          ensures s.pool[k] != Letter(g[i])
        {
          assert s.pool[k] == pool[k] || s.pool[k] == Taken;
        }
      }
    }
  }

  /** A guess letter left EMPTY is never followed by the same letter marked
    * PRESENT further right: offers go to the leftmost claimant. */
  lemma {:induction false} SecondPassLeftmost(g: string, marks: seq<int>, pool: seq<Slot>, i: nat)
    requires |marks| == |g| && i <= |g| && Unvisited(marks, i)
    ensures var s := SecondPass(g, marks, pool, i);
      forall j, k :: i <= j < k < |g| && g[j] == g[k] && s.marks[j] == EMPTY ==> s.marks[k] != PRESENT
    decreases |g| - i
  {
    if i < |g| {
      if marks[i] != CORRECT && Letter(g[i]) in pool {
        var m2 := marks[i := PRESENT];
        var p2 := pool[IndexOf(pool, g[i]) := Taken];
        SecondPassLeftmost(g, m2, p2, i + 1);
        SecondPassFrame(g, m2, p2, i + 1);
      } else {
        SecondPassLeftmost(g, marks, pool, i + 1);
        SecondPassFrame(g, marks, pool, i + 1);
        SecondPassPresent(g, marks, pool, i + 1);
      }
    }
  }

  // ---------------------------------------------------------------------
  // What `check_word` promises.

  /** The copies of a letter matched by the first pass and those its working
    * copy still offers together make up the target's copies. */
  lemma ExactSplit(g: string, t: string, c: char)
    requires |g| == |t|
    ensures MatchedCount(g, ExactMarks(g, t), c) + Offers(Unconsumed(g, t), c) == multiset(t)[c]
  {
    OffersSplit(Marked(g, ExactMarks(g, t)), Unconsumed(g, t), t, c);
  }

  /** One mark per letter; CORRECT exactly where guess and target agree; every
    * other position PRESENT or EMPTY, never ABSENT. */
  lemma EvaluationMarks(g: string, t: string)
    requires |g| == |t|
    ensures var r := Evaluation(g, t);
      |r| == |g| &&
      forall i :: 0 <= i < |g| ==>
        (r[i] == CORRECT <==> g[i] == t[i]) &&
        (r[i] == EMPTY || r[i] == PRESENT || r[i] == CORRECT) &&
        r[i] != ABSENT
  {
    SecondPassFrame(g, ExactMarks(g, t), Unconsumed(g, t), 0);
  }

  /** A PRESENT mark means the letter sits in the target at a position the
    * guess did not match exactly. */
  lemma EvaluationPresent(g: string, t: string, i: nat)
    requires |g| == |t| && i < |g|
    requires Evaluation(g, t)[i] == PRESENT
    ensures g[i] != t[i]
    ensures exists k :: 0 <= k < |t| && t[k] == g[i] && g[k] != t[k]
  {
    EvaluationMarks(g, t);
    SecondPassPresent(g, ExactMarks(g, t), Unconsumed(g, t), 0);
    var u := Unconsumed(g, t);
    var k :| 0 <= k < |u| && u[k] == Letter(g[i]);
    assert t[k] == g[i] && g[k] != t[k];
  }

  /** For every letter c, the positions of the guess holding c and marked
    * CORRECT or PRESENT number at most the occurrences of c in the target. */
  lemma EvaluationNeverOvercounts(g: string, t: string, c: char)
    requires |g| == |t|
    ensures MatchedCount(g, Evaluation(g, t), c) <= multiset(t)[c]
  {
    ExactSplit(g, t, c);
    SecondPassConserves(g, ExactMarks(g, t), Unconsumed(g, t), 0, c);
  }

  /** An EMPTY mark means every occurrence of that letter in the target is
    * already accounted for by other marks. */
  lemma EvaluationExhausts(g: string, t: string, i: nat)
    requires |g| == |t| && i < |g|
    requires Evaluation(g, t)[i] == EMPTY
    ensures g[i] != t[i]
    ensures MatchedCount(g, Evaluation(g, t), g[i]) == multiset(t)[g[i]]
  {
    EvaluationMarks(g, t);
    ExactSplit(g, t, g[i]);
    SecondPassConserves(g, ExactMarks(g, t), Unconsumed(g, t), 0, g[i]);
    SecondPassExhausts(g, ExactMarks(g, t), Unconsumed(g, t), 0);
  }

  /** Among repeats of a letter, PRESENT goes to the leftmost ones: once a
    * repeat is left EMPTY, no later repeat is PRESENT. */
  lemma EvaluationLeftmost(g: string, t: string, j: nat, k: nat)
    requires |g| == |t| && j < k < |g| && g[j] == g[k]
    requires Evaluation(g, t)[j] == EMPTY
    ensures Evaluation(g, t)[k] != PRESENT
  {
    SecondPassLeftmost(g, ExactMarks(g, t), Unconsumed(g, t), 0);
  }

  /** A row is all CORRECT exactly when the guess is the target; in particular
    * the target evaluated against itself is all CORRECT. */
  lemma AllCorrectIffEqual(g: string, t: string)
    requires |g| == |t|
    ensures AllCorrect(Evaluation(g, t)) <==> g == t
  {
    EvaluationMarks(g, t);
  }

  /** Target ALLOT, guess LLAMA: the first L is PRESENT (using the L left over
    * after the exact match), the A is PRESENT, the M and the second A stay EMPTY. */
  lemma AllotLlama()
    ensures Evaluation("LLAMA", "ALLOT") == [PRESENT, CORRECT, PRESENT, EMPTY, EMPTY]
  {
    var g, t := "LLAMA", "ALLOT";
    var p1 := [Letter('A'), Taken, Letter('L'), Letter('O'), Letter('T')];
    assert ExactMarks(g, t) == [EMPTY, CORRECT, EMPTY, EMPTY, EMPTY];
    assert Unconsumed(g, t) == p1;
    assert p1[2] == Letter('L') && IndexOf(p1, 'L') == 2;
    var p2 := [Letter('A'), Taken, Taken, Letter('O'), Letter('T')];
    assert p1[2 := Taken] == p2;
    assert p2[0] == Letter('A') && IndexOf(p2, 'A') == 0;
    var p3 := [Taken, Taken, Taken, Letter('O'), Letter('T')];
    assert p2[0 := Taken] == p3;
    assert Letter('M') !in p3 && Letter('A') !in p3;
    assert [EMPTY, CORRECT, EMPTY, EMPTY, EMPTY][0 := PRESENT] == [PRESENT, CORRECT, EMPTY, EMPTY, EMPTY];
    assert [PRESENT, CORRECT, EMPTY, EMPTY, EMPTY][2 := PRESENT] == [PRESENT, CORRECT, PRESENT, EMPTY, EMPTY];
    calc {
      SecondPass(g, [EMPTY, CORRECT, EMPTY, EMPTY, EMPTY], p1, 0);
      SecondPass(g, [PRESENT, CORRECT, EMPTY, EMPTY, EMPTY], p2, 1);
      SecondPass(g, [PRESENT, CORRECT, EMPTY, EMPTY, EMPTY], p2, 2);
      SecondPass(g, [PRESENT, CORRECT, PRESENT, EMPTY, EMPTY], p3, 3);
      SecondPass(g, [PRESENT, CORRECT, PRESENT, EMPTY, EMPTY], p3, 5);
    }
  }

  // ---------------------------------------------------------------------
  // The loop code itself.

  /** `check_word(guess)` with the target passed in: a result list and a working
    * copy of the target, updated in place by two loops. */
  method CheckWord(guess: string, target: string) returns (result: seq<int>)
    requires |guess| == GRID_SIZE && |target| == GRID_SIZE
    ensures result == Evaluation(guess, target)
  {
    var marks := new int[GRID_SIZE](_ => EMPTY);
    var pool := new Slot[GRID_SIZE](i requires 0 <= i < GRID_SIZE => Letter(target[i]));
    // First pass: exact matches.
    for i := 0 to GRID_SIZE
      invariant forall j :: 0 <= j < i ==>
        marks[j] == ExactMarks(guess, target)[j] && pool[j] == Unconsumed(guess, target)[j]
      invariant forall j :: i <= j < GRID_SIZE ==> marks[j] == EMPTY && pool[j] == Letter(target[j])
    {
      if pool[i] == Letter(guess[i]) {
        marks[i] := CORRECT;
        pool[i] := Taken;
      }
    }
    assert marks[..] == ExactMarks(guess, target);
    assert pool[..] == Unconsumed(guess, target);
    // Second pass: letters present elsewhere.
    for i := 0 to GRID_SIZE
      invariant SecondPass(guess, marks[..], pool[..], i) == SecondPass(guess, ExactMarks(guess, target), Unconsumed(guess, target), 0)
    {
      if marks[i] != CORRECT && Letter(guess[i]) in pool[..] {
        ghost var m0, p0 := marks[..], pool[..];
        var k := IndexOf(pool[..], guess[i]);
        marks[i] := PRESENT;
        pool[k] := Taken;
        assert marks[..] == m0[i := PRESENT];
        assert pool[..] == p0[k := Taken];
      }
    }
    result := marks[..];
  }
}
