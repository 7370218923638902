/** Comparing values and evaluating WHERE conditions: Compare of schema.go, Eval of parser.go. */
module Conditions {
  import opened Keys
  import opened Values

  const INFINITY: nat := 0x7FF0_0000_0000_0000
  const SIGN: nat := 0x8000_0000_0000_0000

  function Magnitude(bits: nat): nat {
    if bits >= SIGN then bits - SIGN else bits
  }

  function Signed(bits: nat): int {
    if bits >= SIGN then -(Magnitude(bits) as int) else Magnitude(bits)
  }

  predicate IsNaN(bits: nat) {
    Magnitude(bits) > INFINITY
  }

  /** IEEE 754 order on bit patterns: sign and magnitude, the two zeros equal, nothing below or above a NaN. */
  predicate FloatLess(a: nat, b: nat) {
    !IsNaN(a) && !IsNaN(b) && Signed(a) < Signed(b)
  }

  predicate SameType(a: Value, b: Value) {
    || (a.Int? && b.Int?) || (a.Float? && b.Float?) || (a.Text? && b.Text?) || (a.Bool? && b.Bool?)
    || (a.Bytes? && b.Bytes?) || (a.Semi? && b.Semi?)
  }

  /** -1, 0 or 1; no result when the types differ or have no order. */
  function Compare(a: Value, b: Value): Option<int> {
    if a.Null? && b.Null? then Some(0)
    else if a.Null? then Some(-1)
    else if b.Null? then Some(1)
    else if !SameType(a, b) then None
    else
      match a
      case Int(i) => Some(if i < b.i then -1 else if i > b.i then 1 else 0)
      case Float(f) => Some(if FloatLess(f, b.bits) then -1 else if FloatLess(b.bits, f) then 1 else 0)
      case Text(t) => Some(if Less(t, b.text) then -1 else if Less(b.text, t) then 1 else 0)
      case Bool(x) => Some(if x == b.b then 0 else if !x then -1 else 1)
      case _ => None
  }

  /** Values that have a place in the order: not a NaN, and not bytes or a map. */
  predicate HasPlace(v: Value) {
    !v.Bytes? && !v.Semi? && (v.Float? ==> !IsNaN(v.bits))
  }

  /** What Compare calls equal: the same value, or the two zeros. */
  predicate Same(a: Value, b: Value) {
    a == b || (a.Float? && b.Float? && Magnitude(a.bits) == 0 && Magnitude(b.bits) == 0)
  }

  /** Among values of one type and NULL, NaN aside, Compare is a total order. */
  lemma CompareIsOrder(a: Value, b: Value, c: Value)
    requires HasPlace(a) && HasPlace(b) && HasPlace(c)
    ensures Compare(a, b).Some? <==> a.Null? || b.Null? || SameType(a, b)
    ensures Compare(a, b).Some? ==> Compare(b, a) == Some(-Compare(a, b).value)
    ensures Compare(a, b).Some? ==> (Compare(a, b).value == 0 <==> Same(a, b))
    ensures Compare(a, b).Some? && Compare(b, c).Some? && Compare(a, b).value <= 0 && Compare(b, c).value <= 0 ==>
      Compare(a, c).Some? && Compare(a, c).value <= 0
      && (Compare(a, c).value == 0 <==> Compare(a, b).value == 0 && Compare(b, c).value == 0)
  {
    OrderLaws();
  }

  // ---------------------------------------------------------------------------------------------
  // Which way the order goes, type by type

  /** How a comparison answers the six operators when the row's value comes before, level with or after the other. */
  ghost predicate Answers(w: Where, row: map<Key, Value>, before: bool, level: bool, after: bool)
    requires w.Leaf?
  {
    match w.op
    case Eq => Passes(w, row) <==> level
    case Ne => Passes(w, row) <==> !level
    case Lt => Passes(w, row) <==> before
    case Le => Passes(w, row) <==> before || level
    case Gt => Passes(w, row) <==> after
    case Ge => Passes(w, row) <==> after || level
    case UnknownOp => !Passes(w, row)
  }

  /** Integers: by their value. */
  lemma IntLeaf(c: Key, op: Op, row: map<Key, Value>, i: int, n: int)
    requires c in row && row[c] == Int(i)
    ensures Answers(Leaf(c, op, Int(n)), row, i < n, i == n, i > n)
  {
  }

  /** Text: the lexicographic order of the bytes. */
  lemma TextLeaf(c: Key, op: Op, row: map<Key, Value>, s: seq<byte>, t: seq<byte>)
    requires c in row && row[c] == Text(s)
    ensures Answers(Leaf(c, op, Text(t)), row, Less(s, t), s == t, Less(t, s))
  {
    OrderLaws();
  }

  /** Booleans: false before true. */
  lemma BoolLeaf(c: Key, op: Op, row: map<Key, Value>, x: bool, y: bool)
    requires c in row && row[c] == Bool(x)
    ensures Answers(Leaf(c, op, Bool(y)), row, !x && y, x == y, x && !y)
  {
  }

  /** NULL: level with NULL and before everything else. */
  lemma NullLeaf(c: Key, op: Op, row: map<Key, Value>, v: Value)
    requires c in row
    ensures row[c] == Null ==> Answers(Leaf(c, op, v), row, v != Null, v == Null, false)
    ensures Answers(Leaf(c, op, Null), row, false, row[c] == Null, row[c] != Null)
  {
  }

  /** Two values can be compared if one is NULL or both are integers, floats, texts or booleans. */
  lemma ComparableIff(a: Value, b: Value)
    ensures Compare(a, b).Some? <==>
      || a == Null || b == Null || (a.Int? && b.Int?) || (a.Float? && b.Float?)
      || (a.Text? && b.Text?) || (a.Bool? && b.Bool?)
  {
  }

  function Pow2(n: nat): nat {
    if n == 0 then 1 else 2 * Pow2(n - 1)
  }

  /** What 63 bits of exponent and fraction stand for, in units of 2^-1074: the smallest positive double is 1. */
  function Scaled(mag: nat): nat {
    var e, f := mag / 0x10_0000_0000_0000, mag % 0x10_0000_0000_0000;
    if e == 0 then f else (0x10_0000_0000_0000 + f) * Pow2(e - 1)
  }

  /** The number that a finite double stands for, in the same units: section 3.4 of IEEE 754. */
  function FloatNumber(bits: nat): int {
    if bits >= 0x8000_0000_0000_0000 then -(Scaled(bits - 0x8000_0000_0000_0000) as int) else Scaled(bits)
  }

  lemma {:induction false} Pow2Up(a: nat, b: nat)
    requires a <= b
    ensures 0 < Pow2(a) <= Pow2(b)
    decreases b
  {
    if a < b {
      Pow2Up(a, b - 1);
    } else if b > 0 {
      Pow2Up(a - 1, b - 1);
    }
  }

  lemma TimesUp(a: nat, b: nat, m: nat)
    requires a < b && m > 0
    ensures a * m < b * m
  {
  }

  lemma TimesAtLeast(a: nat, b: nat, m: nat, n: nat)
    requires a <= b && m <= n
    ensures a * m <= b * n
  {
  }

  /** More bits, a greater number. */
  lemma ScaledUp(a: nat, b: nat)
    requires a < b
    ensures Scaled(a) < Scaled(b)
  {
    hide Pow2;
    var m := 0x10_0000_0000_0000;
    var e, f, e', f' := a / m, a % m, b / m, b % m;
    assert e * m + f == a && e' * m + f' == b && e <= e';
    Pow2Up(0, if e > 0 then e - 1 else 0);
    Pow2Up(0, if e' > 0 then e' - 1 else 0);
    if e == e' {
      if e > 0 {
        TimesUp(m + f, m + f', Pow2(e - 1));
      }
    } else {
      var top := if e == 0 then m else 2 * m;
      var p := if e == 0 then 1 else Pow2(e - 1);
      assert Scaled(a) < top * p by {
        if e > 0 {
          TimesUp(m + f, 2 * m, Pow2(e - 1));
        }
      }
      assert top * p <= m * Pow2(e' - 1) by {
        if e > 0 {
          Doubled(e);
          Pow2Up(e, e' - 1);
          TimesAtLeast(m, m, Pow2(e), Pow2(e' - 1));
        } else {
          TimesAtLeast(m, m, 1, Pow2(e' - 1));
        }
      }
      TimesAtLeast(m, m + f', Pow2(e' - 1), Pow2(e' - 1));
    }
  }

  lemma Doubled(e: nat)
    requires e > 0
    ensures Pow2(e) == 2 * Pow2(e - 1)
  {
  }

  /** Floats that are no NaN: by the number they stand for, the infinities beyond all others. A NaN is level with
      everything. */
  lemma FloatLeaf(c: Key, op: Op, row: map<Key, Value>, a: nat, b: nat)
    requires c in row && row[c] == Float(a) && a < 0x1_0000_0000_0000_0000 && b < 0x1_0000_0000_0000_0000
    ensures var magA, magB := a % 0x8000_0000_0000_0000, b % 0x8000_0000_0000_0000;
      var nan := magA > 0x7FF0_0000_0000_0000 || magB > 0x7FF0_0000_0000_0000;
      var x, y := FloatNumber(a), FloatNumber(b);
      Answers(Leaf(c, op, Float(b)), row, !nan && x < y, nan || x == y, !nan && x > y)
  {
    hide Scaled;
    var m, n := Magnitude(a), Magnitude(b);
    if m < n {
      ScaledUp(m, n);
    } else if n < m {
      ScaledUp(n, m);
    }
    ZeroScaled();
    if m > 0 {
      ScaledUp(0, m);
    }
    if n > 0 {
      ScaledUp(0, n);
    }
  }

  lemma ZeroScaled()
    ensures Scaled(0) == 0
  {
  }

  // ---------------------------------------------------------------------------------------------

  /** A NaN equals every float, itself or not, so with one among them equality does not carry over. */
  lemma NaNEqualsAll(nan: nat, f: nat)
    requires IsNaN(nan)
    ensures Compare(Float(nan), Float(f)) == Some(0) && Compare(Float(f), Float(nan)) == Some(0)
  {
  }

  /** Carrying over fails exactly for a NaN in the middle: any two floats are joined by "=" through it. */
  lemma EqualityCarriesIff(b: nat)
    ensures !IsNaN(b) <==>
      forall a: nat, c: nat :: Carries(a, b, c)
  {
    if IsNaN(b) {
      assert !Carries(0, b, 1);
    } else {
      forall a: nat, c: nat
        ensures Carries(a, b, c)
      {
        if IsNaN(a) || IsNaN(c) {
          assert Compare(Float(a), Float(c)) == Some(0);
        }
      }
    }
  }

  predicate Carries(a: nat, b: nat, c: nat) {
    Compare(Float(a), Float(b)) == Some(0) && Compare(Float(b), Float(c)) == Some(0)
    ==> Compare(Float(a), Float(c)) == Some(0)
  }

  datatype Op = Eq | Ne | Lt | Le | Gt | Ge | UnknownOp

  datatype Logic = And | Or | UnknownLogic

  datatype Where = Leaf(column: Key, op: Op, value: Value) | Branch(logic: Logic, left: Where, right: Where)

  /** Whether the row passes; None when evaluation reports an error. Both sides of a branch are always
      evaluated, and an error on either side is the branch's error. */
  function Eval(w: Where, row: map<Key, Value>): Option<bool> {
    match w
    case Leaf(column, op, value) =>
      if column !in row then None
      else
        (match Compare(row[column], value)
         case None => Some(false)
         case Some(c) =>
           match op
           case Eq => Some(c == 0)
           case Ne => Some(c != 0)
           case Lt => Some(c < 0)
           case Le => Some(c <= 0)
           case Gt => Some(c > 0)
           case Ge => Some(c >= 0)
           case UnknownOp => None)
    case Branch(logic, left, right) =>
      match Eval(left, row)
      case None => None
      case Some(l) =>
        match Eval(right, row)
        case None => None
        case Some(r) =>
          match logic
          case And => Some(l && r)
          case Or => Some(l || r)
          case UnknownLogic => None
  }

  /** A row passes a condition when evaluating it gives true; an error counts as not passing. */
  predicate Passes(w: Where, row: map<Key, Value>) {
    Eval(w, row) == Some(true)
  }

  function Leaves(w: Where): set<Where> {
    match w
    case Leaf(_, _, _) => {w}
    case Branch(_, l, r) => Leaves(l) + Leaves(r)
  }

  predicate KnownLogic(w: Where) {
    w.Branch? ==> w.logic != UnknownLogic && KnownLogic(w.left) && KnownLogic(w.right)
  }

  /** The usual two-valued reading of the tree, given which leaves hold. */
  predicate Reading(w: Where, holds: set<Where>) {
    match w
    case Leaf(_, _, _) => w in holds
    case Branch(And, l, r) => Reading(l, holds) && Reading(r, holds)
    case Branch(_, l, r) => Reading(l, holds) || Reading(r, holds)
  }

  /** Evaluation gives an answer exactly when every leaf does, and the answer is then the usual reading.
      So one leaf about a missing column makes the row fail, even beside an OR that holds. */
  lemma {:induction false} EvalReads(w: Where, row: map<Key, Value>)
    ensures Eval(w, row).Some? <==> KnownLogic(w) && forall x :: x in Leaves(w) ==> Eval(x, row).Some?
    ensures Passes(w, row) <==>
      && KnownLogic(w) && (forall x :: x in Leaves(w) ==> Eval(x, row).Some?)
      && Reading(w, set x | x in Leaves(w) && Passes(x, row))
  {
    if w.Branch? {
      EvalReads(w.left, row);
      EvalReads(w.right, row);
      var holds := set x | x in Leaves(w) && Passes(x, row);
      ReadingOf(w.left, holds, set x | x in Leaves(w.left) && Passes(x, row));
      ReadingOf(w.right, holds, set x | x in Leaves(w.right) && Passes(x, row));
    }
  }

  lemma {:induction false} ReadingOf(w: Where, a: set<Where>, b: set<Where>)
    requires forall x :: x in Leaves(w) ==> (x in a <==> x in b)
    ensures Reading(w, a) <==> Reading(w, b)
  {
    if w.Branch? {
      ReadingOf(w.left, a, b);
      ReadingOf(w.right, a, b);
    }
  }

  /** The six operators of a leaf whose column the row has, with the leaf's value comparable to it. */
  lemma LeafMeaning(column: Key, value: Value, row: map<Key, Value>)
    requires column in row && HasPlace(row[column]) && HasPlace(value)
    requires row[column].Null? || value.Null? || SameType(row[column], value)
    ensures Passes(Leaf(column, Eq, value), row) <==> Same(row[column], value)
    ensures Passes(Leaf(column, Ne, value), row) <==> !Passes(Leaf(column, Eq, value), row)
    ensures Passes(Leaf(column, Ge, value), row) <==> !Passes(Leaf(column, Lt, value), row)
    ensures Passes(Leaf(column, Le, value), row) <==> !Passes(Leaf(column, Gt, value), row)
    ensures Passes(Leaf(column, Le, value), row) <==>
      Passes(Leaf(column, Lt, value), row) || Passes(Leaf(column, Eq, value), row)
    ensures row[column].Null? && !value.Null? ==> Passes(Leaf(column, Lt, value), row)
  {
    CompareIsOrder(row[column], value, value);
  }

  /** Between values of different types no operator passes, not even "!=". */
  lemma MismatchFails(column: Key, value: Value, row: map<Key, Value>)
    requires column in row
    ensures Compare(row[column], value) == None <==>
      forall o: Op {:trigger Leaf(column, o, value)} :: Eval(Leaf(column, o, value), row) == Some(false)
  {
    if Compare(row[column], value).Some? {
      var c := Compare(row[column], value).value;
      assert Eval(Leaf(column, Eq, value), row) == Some(c == 0);
      assert Eval(Leaf(column, Ne, value), row) == Some(c != 0);
    }
  }
}
