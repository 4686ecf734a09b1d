/**
 * The mode of a line of intensities: the most frequent value and how often
 * it occurs. Ties are broken deterministically: the smallest value wins.
 */
module Modes {

  datatype LineMode = LineMode(value: int, count: nat)

  /** a is at least as good a mode as b for line: strictly more frequent, or
      equally frequent and not larger. */
  predicate Precedes(line: seq<int>, a: int, b: int)
  {
    multiset(line)[a] > multiset(line)[b] ||
    (multiset(line)[a] == multiset(line)[b] && a <= b)
  }

  /** The best mode candidate among `candidates`, judged by frequency in line. */
  function ModeAmong(line: seq<int>, candidates: seq<int>): (m: int)
    requires candidates != []
    ensures m in candidates
    ensures forall x :: x in candidates ==> Precedes(line, m, x)
    decreases |candidates|
  {
    if |candidates| == 1 then candidates[0]
    else
      var best := ModeAmong(line, candidates[1..]);
      assert forall x :: x in candidates ==> x == candidates[0] || x in candidates[1..];
      if Precedes(line, candidates[0], best) then candidates[0] else best
  }

  /** The mode of a line. An empty line has no mode; it is given (0, 0). */
  function Mode(line: seq<int>): (m: LineMode)
    ensures m.count == multiset(line)[m.value]
    ensures forall x :: multiset(line)[x] <= m.count
    ensures line != [] ==> m.value in line
    ensures line != [] ==> forall x :: multiset(line)[x] == m.count ==> m.value <= x
  {
    if line == [] then LineMode(0, 0)
    else
      var v := ModeAmong(line, line);
      assert forall x :: x !in line ==> multiset(line)[x] == 0;
      LineMode(v, multiset(line)[v])
  }

  /** The three properties of Mode determine it: a value that is as frequent
      as any other and is the smallest of the most frequent is the mode. */
  lemma ModeCharacterized(line: seq<int>, v: int)
    requires line != []
    requires forall x :: multiset(line)[x] <= multiset(line)[v]
    requires forall x :: multiset(line)[x] == multiset(line)[v] ==> v <= x
    ensures Mode(line) == LineMode(v, multiset(line)[v])
  {
    var m := Mode(line);
    assert multiset(line)[m.value] == multiset(line)[v];
  }

  /** On a non-empty line, v is the mode exactly when it is the smallest of
      the most frequent values. */
  lemma ModeExactly(line: seq<int>, v: int)
    ensures line != [] ==> (Mode(line).value == v <==>
      (forall x :: multiset(line)[x] <= multiset(line)[v]) &&
      (forall x :: multiset(line)[x] == multiset(line)[v] ==> v <= x))
  {
    if line != [] && (forall x :: multiset(line)[x] <= multiset(line)[v]) &&
       (forall x :: multiset(line)[x] == multiset(line)[v] ==> v <= x) {
      ModeCharacterized(line, v);
    }
  }

  /** Of two values occurring equally often, at least as often as any other,
      the larger one is never the mode. */
  lemma ModeTieBreak(line: seq<int>, a: int, b: int)
    requires line != [] && a < b
    requires multiset(line)[a] == multiset(line)[b]
    requires forall x :: multiset(line)[x] <= multiset(line)[a]
    ensures Mode(line).value <= a < b
  {
    assert multiset(line)[a] == Mode(line).count;
  }

  /** A value strictly more frequent than every other value is the mode. */
  lemma ModeOfDominant(line: seq<int>, v: int)
    requires forall x :: x != v ==> multiset(line)[x] < multiset(line)[v]
    ensures Mode(line) == LineMode(v, multiset(line)[v])
  {
    assert multiset(line)[v] <= Mode(line).count;
  }
}
