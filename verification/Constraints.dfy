/** sanei_constrain_value: what a frontend asks for is brought into the range of an option, onto its list of
    numbers, or to one of its names. */
module Constraints {
  import opened RowMath

  // ---------- Ranges ----------

  /** A range of numbers; a quantisation of 0 allows all of them. */
  datatype Range = Range(min: int, max: int, quant: nat)

  function Clamped(r: Range, w: int): int {
    if w < r.min then r.min else if w > r.max then r.max else w
  }

  /** A number brought into a range. */
  function Ranged(r: Range, w: int): int {
    var c := Clamped(r, w);
    if r.quant == 0 then c
    else
      var v := (c - r.min + r.quant / 2) / r.quant * r.quant + r.min;
      if v > r.max then r.max else v
  }

  /** The result lies in the range, at a whole number of steps from its start or at its end, and no more than
      half a step from where clamping alone leads. */
  lemma RangedInside(r: Range, w: int)
    requires r.min <= r.max
    ensures r.min <= Ranged(r, w) <= r.max
    ensures r.quant <= 1 ==> Ranged(r, w) == Clamped(r, w)
    ensures r.quant > 0 ==> Ranged(r, w) == r.max || (Ranged(r, w) - r.min) % r.quant == 0
    ensures r.quant > 0 ==> 2 * Distance(Ranged(r, w), Clamped(r, w)) <= r.quant
  {
    if r.quant > 0 {
      var x, q := Clamped(r, w) - r.min + r.quant / 2, r.quant;
      var d := x / q;
      assert x == d * q + x % q && d >= 0;
      Remainder(d * q, q, d, 0);
    }
  }

  /** A number in the range that is on a step stays; one below the range becomes its first, and one above its last if
      that is on a step, or if all numbers are allowed. */
  lemma RangedLaw(r: Range, w: int)
    requires r.min <= r.max
    ensures r.min <= w <= r.max && (r.quant == 0 || (w - r.min) % r.quant == 0) ==> Ranged(r, w) == w
    ensures w <= r.min ==> Ranged(r, w) == r.min
    ensures w >= r.max && (r.quant == 0 || (r.max - r.min) % r.quant == 0) ==> Ranged(r, w) == r.max
  {
    if r.quant > 0 {
      var x := if w <= r.min then 0 else if w >= r.max then r.max - r.min else w - r.min;
      if x % r.quant == 0 {
        OnStep(x, r.quant);
      }
    }
  }

  lemma OnStep(x: nat, q: nat)
    requires q > 0 && x % q == 0
    ensures (x + q / 2) / q * q == x
  {
    Remainder(x + q / 2, q, x / q, q / 2);
  }

  /** The range branch for one value. */
  method ConstrainWord(r: Range, w: int) returns (v: int, inexact: bool)
    requires r.min <= r.max
    ensures v == Ranged(r, w) && (v != w ==> inexact)
    ensures r.quant <= 1 ==> (inexact <==> v != w)
  {
    v, inexact := w, false;
    if v < r.min {
      v, inexact := r.min, true;
    }
    if v > r.max {
      v, inexact := r.max, true;
    }
    if r.quant > 0 {
      var q := (v - r.min + r.quant / 2) / r.quant * r.quant + r.min;
      if q > r.max {
        q := r.max;
      }
      if q != v {
        v, inexact := q, true;
      }
    }
  }

  /** All values of an array option. */
  function RangedAll(r: Range, words: seq<int>): (s: seq<int>)
    ensures |s| == |words|
  {
    seq(|words|, i requires 0 <= i < |words| => Ranged(r, words[i]))
  }

  /** The range branch, in place. */
  method ConstrainRange(values: array<int>, r: Range) returns (inexact: bool)
    requires r.min <= r.max
    modifies values
    ensures values[..] == RangedAll(r, old(values[..]))
    ensures values[..] != old(values[..]) ==> inexact
    ensures r.quant <= 1 ==> (inexact <==> values[..] != old(values[..]))
  {
    hide Ranged;
    inexact := false;
    for i := 0 to values.Length
      invariant forall k | 0 <= k < i :: values[k] == Ranged(r, old(values[k]))
      invariant forall k | i <= k < values.Length :: values[k] == old(values[k])
      invariant (exists k | 0 <= k < i :: values[k] != old(values[k])) ==> inexact
      invariant r.quant <= 1 && inexact ==> exists k | 0 <= k < i :: values[k] != old(values[k])
    {
      var v, changed := ConstrainWord(r, values[i]);
      values[i] := v;
      inexact := inexact || changed;
      assert v != old(values[i]) ==> values[i] != old(values[i]);
    }
    assert forall k | 0 <= k < values.Length :: values[..][k] == values[k] && old(values[..])[k] == old(values[k]);
  }

  // ---------- Lists of numbers ----------

  function Distance(a: int, b: int): nat {
    if a < b then b - a else a - b
  }

  /** The place of the number nearest to w among the first n, and of the first of them if there are several. */
  function NearestIndex(list: seq<int>, w: int, n: nat): (k: nat)
    requires 0 < n <= |list|
    ensures k < n && forall i | 0 <= i < n :: Distance(w, list[k]) <= Distance(w, list[i])
    ensures forall i | 0 <= i < k :: Distance(w, list[k]) < Distance(w, list[i])
  {
    if n == 1 then 0
    else
      var k := NearestIndex(list, w, n - 1);
      if Distance(w, list[n - 1]) < Distance(w, list[k]) then n - 1 else k
  }

  function Nearest(list: seq<int>, w: int): (v: int)
    requires list != []
    ensures v in list && forall u | u in list :: Distance(w, v) <= Distance(w, u)
  {
    list[NearestIndex(list, w, |list|)]
  }

  /** A number of the list is its own nearest. */
  lemma NearestMember(list: seq<int>, w: int)
    requires w in list
    ensures Nearest(list, w) == w
  {
    assert Distance(w, Nearest(list, w)) <= Distance(w, w);
  }

  /** The word list branch. */
  method ConstrainList(list: seq<int>, w: int) returns (v: int, inexact: bool)
    requires list != []
    ensures v == Nearest(list, w) && (inexact <==> v != w)
  {
    var k, d := 0, Distance(w, list[0]);
    for i := 0 to |list|
      invariant i == 0 ==> k == 0
      invariant i > 0 ==> k == NearestIndex(list, w, i)
      invariant d == Distance(w, list[k])
    {
      var h := Distance(w, list[i]);
      if h < d {
        k, d := i, h;
      }
    }
    v, inexact := list[k], w != list[k];
  }

  // ---------- Names ----------

  function Lower(c: char): char {
    if 'A' <= c <= 'Z' then ((c as int - 'A' as int) + 'a' as int) as char else c
  }

  /** Only the capital letters have another form. */
  lemma LowerLaw(c: char)
    ensures 'A' <= c <= 'Z' ==> Lower(c) as int == c as int + 32
    ensures !('A' <= c <= 'Z') ==> Lower(c) == c
  {
  }

  /** strncasecmp finds no difference over the length of the value. */
  ghost predicate Starts(name: string, value: string) {
    |value| <= |name| && forall i | 0 <= i < |value| :: Lower(value[i]) == Lower(name[i])
  }

  ghost predicate Exact(name: string, value: string) {
    |value| == |name| && Starts(name, value)
  }

  datatype Match = Matched(index: nat) | NoMatch

  method StartsWith(name: string, value: string) returns (b: bool)
    ensures b <==> Starts(name, value)
  {
    b := |value| <= |name|;
    var i := 0;
    while b && i < |value|
      invariant i <= |value| && (b ==> |value| <= |name|)
      invariant b ==> forall k | 0 <= k < i :: Lower(value[k]) == Lower(name[k])
      invariant !b ==> !Starts(name, value)
    {
      b := Lower(value[i]) == Lower(name[i]);
      i := i + 1;
    }
  }

  /** The string list branch: the first name that equals the value but for case, or else the only one that
      starts with it. */
  method MatchName(list: seq<string>, value: string) returns (m: Match)
    ensures (exists i | 0 <= i < |list| :: Exact(list[i], value)) ==>
              && m.Matched? && m.index < |list| && Exact(list[m.index], value)
              && forall i | 0 <= i < m.index :: !Exact(list[i], value)
    ensures (forall i | 0 <= i < |list| :: !Exact(list[i], value)) ==>
              (m.Matched? <==> exists i | 0 <= i < |list| :: Only(list, value, i))
    ensures (forall i | 0 <= i < |list| :: !Exact(list[i], value)) && m.Matched? ==>
              m.index < |list| && Only(list, value, m.index)
  {
    var matches: nat, last: nat := 0, 0;
    for i := 0 to |list|
      invariant forall k | 0 <= k < i :: !Exact(list[k], value)
      invariant matches == 0 ==> forall k | 0 <= k < i :: !Starts(list[k], value)
      invariant matches == 1 ==> 0 <= last < i && Starts(list[last], value)
      invariant matches == 1 ==> forall k | 0 <= k < i && k != last :: !Starts(list[k], value)
      invariant matches > 1 ==> exists k, l :: 0 <= k < l < i && Starts(list[k], value) && Starts(list[l], value)
    {
      var b := StartsWith(list[i], value);
      if b {
        if |value| == |list[i]| {
          return Matched(i);
        }
        matches, last := matches + 1, i;
      }
    }
    assert matches == 1 ==> Only(list, value, last);
    m := if matches == 1 then Matched(last) else NoMatch;
  }

  /** Of all names, only this one starts with the value. */
  ghost predicate Only(list: seq<string>, value: string, i: nat)
    requires i < |list|
  {
    Starts(list[i], value) && forall k | 0 <= k < |list| && k != i :: !Starts(list[k], value)
  }
}
