/** dd_get_replacement (dd_scanf.h:348-382): given the position of a '%' in
    the format, finds where the directive's specifier ends. */
module Extent {
  import opened Text
  import opened Results

  /** Where the scan stands relative to a class: no '[' seen, inside one, or
      past its ']' (the source's left_showed / right_showed pair). */
  datatype Bracket = Before | Inside | Closed

  /** The characters the scan passes over outside a class. 'l' and 'h' are
      not among them. */
  predicate InAlphabet(c: char) {
    ('0' <= c <= '9') || c == 'd' || c == 'i' || c == 'u' || c == 'f' || c == 'g' || c == 'e' ||
    c == 'o' || c == 'x' || c == 'c' || c == 's' || c == 'b' || c == 'p' || c == 'F' || c == 'G' ||
    c == 'E' || c == 'X' || c == '.' || c == '+' || c == '*'
  }

  /** The scan from position i on. Inside a class every character but ']' is
      passed over, the terminator included: the source then reads past the
      end of the format, and the model reports None. */
  function ExtentFrom(f: seq<char>, i: nat, br: Bracket): (r: Option<nat>)
    requires i <= |f|
    ensures r.Some? ==> i <= r.value <= |f|
    decreases |f| - i
  {
    if i == |f| then
      if br == Inside then None else Some(i)
    else
      var c := f[i];
      if c == '[' then
        if br == Closed then Some(i) else ExtentFrom(f, i + 1, Inside)
      else if c == ']' then
        if br == Inside then ExtentFrom(f, i + 1, Closed) else Some(i)
      else if InAlphabet(c) then
        if br == Closed then Some(i) else ExtentFrom(f, i + 1, br)
      else if br == Inside then ExtentFrom(f, i + 1, br)
      else Some(i)
  }

  /** dd_get_replacement(f + beg), beg being the position of the '%'. */
  function GetReplacementSpec(f: seq<char>, beg: nat): (r: Option<nat>)
    requires beg < |f|
    ensures r.Some? ==> beg < r.value <= |f|
  {
    if At(f, beg + 1) == '%' then Some(beg + 2) else ExtentFrom(f, beg + 1, Before)
  }

  /** The scan as the source runs it, with its two flags. */
  method GetReplacement(f: seq<char>, beg: nat) returns (r: Option<nat>)
    requires beg < |f|
    ensures r == GetReplacementSpec(f, beg)
  {
    if At(f, beg + 1) == '%' {
      return Some(beg + 2);
    }
    var leftShowed, rightShowed := false, false;
    var i: nat := beg + 1;
    while true
      invariant i <= |f| && (rightShowed ==> leftShowed)
      invariant ExtentFrom(f, i, if !leftShowed then Before else if !rightShowed then Inside else Closed)
                  == ExtentFrom(f, beg + 1, Before)
      decreases |f| - i
    {
      var c := At(f, i);
      if c == '[' {
        if leftShowed && rightShowed {
          return Some(i);
        }
        leftShowed := true;
      } else if c == ']' {
        if !leftShowed || rightShowed {
          return Some(i);
        }
        rightShowed := true;
      } else if InAlphabet(c) {
        if leftShowed && rightShowed {
          return Some(i);
        }
      } else if !leftShowed || rightShowed {
        return Some(i);
      }
      if i == |f| {
        // inside a class at the terminator: the source reads on past the format
        return None;
      }
      i := i + 1;
    }
  }

  /** Inside a class the scan runs to the first ']' and stops just after it. */
  lemma {:induction false} InsideClass(f: seq<char>, i: nat, close: nat)
    requires i <= close < |f| && f[close] == ']'
    requires forall k :: i <= k < close ==> f[k] != ']'
    ensures ExtentFrom(f, i, Inside) == Some(close + 1)
    decreases close - i
  {
    if i < close {
      InsideClass(f, i + 1, close);
    }
  }

  /** A class without a ']' up to the end of the format has no end. */
  lemma {:induction false} UnterminatedClass(f: seq<char>, i: nat)
    requires i <= |f|
    requires forall k :: i <= k < |f| ==> f[k] != ']'
    ensures ExtentFrom(f, i, Inside) == None
    decreases |f| - i
  {
    if i < |f| {
      UnterminatedClass(f, i + 1);
    }
  }

  /** The scan outside a class passes over the alphabet and stops at the
      first character outside it, unless that character opens a class. */
  lemma {:induction false} PlainExtent(f: seq<char>, i: nat, p: nat)
    requires i <= p <= |f|
    requires forall k :: i <= k < p ==> InAlphabet(f[k])
    ensures ExtentFrom(f, i, Before) == ExtentFrom(f, p, Before)
    decreases p - i
  {
    if i < p {
      assert f[i] != '[' && f[i] != ']';
      assert ExtentFrom(f, i, Before) == ExtentFrom(f, i + 1, Before);
      PlainExtent(f, i + 1, p);
    }
  }

  /** What dd_get_replacement returns for a '%' followed by a run of the
      alphabet ending at p: "%%" gives the position after the second '%';
      otherwise p itself when f[p] is not '['; when f[p] opens a class, the
      position after the class's first ']', or None when there is none. */
  lemma GetReplacementEnds(f: seq<char>, beg: nat, p: nat)
    requires beg < p <= |f|
    requires forall k :: beg + 1 <= k < p ==> InAlphabet(f[k])
    requires !InAlphabet(At(f, p))
    ensures At(f, beg + 1) == '%' ==> GetReplacementSpec(f, beg) == Some(beg + 2)
    ensures At(f, beg + 1) != '%' && At(f, p) != '[' ==> GetReplacementSpec(f, beg) == Some(p)
    ensures At(f, beg + 1) != '%' && At(f, p) == '[' ==>
              ((forall k :: p < k < |f| ==> f[k] != ']') ==> GetReplacementSpec(f, beg) == None) &&
              (forall close :: p < close < |f| && f[close] == ']' && (forall k :: p < k < close ==> f[k] != ']') ==>
                 GetReplacementSpec(f, beg) == Some(close + 1))
  {
    if At(f, beg + 1) != '%' {
      PlainExtent(f, beg + 1, p);
      assert GetReplacementSpec(f, beg) == ExtentFrom(f, p, Before);
      if At(f, p) != '[' {
        assert ExtentFrom(f, p, Before) == Some(p);
      } else {
        assert ExtentFrom(f, p, Before) == ExtentFrom(f, p + 1, Inside);
        if forall k :: p < k < |f| ==> f[k] != ']' {
          UnterminatedClass(f, p + 1);
        }
        forall close | p < close < |f| && f[close] == ']' && (forall k :: p < k < close ==> f[k] != ']')
          ensures ExtentFrom(f, p + 1, Inside) == Some(close + 1)
        {
          InsideClass(f, p + 1, close);
        }
      }
    }
  }
}
