/** The bracket-class compiler inside dd_parse_replacement (dd_scanf.h:136-175):
    it reads the characters after '[' up to the first ']' and writes the class
    into the 128-byte chset buffer through an advancing pointer j. */
module ClassCompiler {
  import opened Results
  import opened Text
  import opened Directive

  /** The characters lo..hi, each once, in increasing order. */
  function Run(lo: char, hi: char): (r: seq<char>)
    requires lo <= hi && hi as int < 128
    ensures |r| == hi as int - lo as int + 1
    ensures forall k :: 0 <= k < |r| ==> r[k] as int == lo as int + k
    decreases hi as int - lo as int
  {
    if lo == hi then [lo] else [lo] + Run((lo as int + 1) as char, hi)
  }

  /** 'z', 'Z' and '9' complete a run when the last character written is 'a', 'A' or '0'. */
  predicate ClosesRun(c: char) {
    c == 'z' || c == 'Z' || c == '9'
  }

  function RunStart(c: char): char
    requires ClosesRun(c)
  {
    if c == 'z' then 'a' else if c == 'Z' then 'A' else '0'
  }

  /** What one class character at position k does to the state byte and to chset.
      A run-closing character with nothing written before it makes the source read
      chset[-1]; the model reports that as an invalid format. */
  function ClassStep(f: seq<char>, k: nat, state: bv8, chset: seq<char>): (r: Result<(bv8, seq<char>), ScanError>)
    requires k < |f|
    // the only failure is a run-closing character with nothing written before it
    ensures r.Failure? <==> ClosesRun(f[k]) && chset == []
    ensures r.Failure? ==> r.error == InvalidFormatString
    // a '^' sets the negation bit, and the bit is never cleared
    ensures r.Success? ==> (Has(r.value.0, NegatedBit) <==> Has(state, NegatedBit) || f[k] == '^')
  {
    var c := f[k];
    if c == '^' then
      if !Has(state, NegatedBit) then Success((state | NegatedBit, chset)) else Success((state, chset + ['^']))
    else if c == '-' then
      Success((state, if At(f, k + 1) == '-' then chset + ['-'] else chset))
    else if ClosesRun(c) then
      if chset == [] then Failure(InvalidFormatString)
      else if chset[|chset| - 1] == RunStart(c) then Success((state, chset[..|chset| - 1] + Run(RunStart(c), c)))
      else Success((state, chset + [c]))
    else
      Success((state, chset + [c]))
  }

  /** The outcome of compiling a class: the state byte, the buffer's contents and
      the position of the closing ']'. */
  datatype Class = Class(state: bv8, chset: seq<char>, close: nat)

  /** The class loop from position k on. Reaching the terminator before a ']'
      (the source reads on past it) and writing more than 128 characters (the
      source overruns chset) are reported as invalid formats. */
  function ClassFrom(f: seq<char>, k: nat, state: bv8, chset: seq<char>): (r: Result<Class, ScanError>)
    requires k <= |f|
    ensures r.Success? ==> k <= r.value.close < |f| && f[r.value.close] == ']'
    ensures r.Success? && r.value.close > k ==> |r.value.chset| <= ChsetCapacity
    decreases |f| - k
  {
    if k == |f| then Failure(InvalidFormatString)
    else if f[k] == ']' then Success(Class(state, chset, k))
    else
      match ClassStep(f, k, state, chset)
      case Failure(e) => Failure(e)
      case Success((st, cs)) =>
        if |cs| > ChsetCapacity then Failure(InvalidFormatString) else ClassFrom(f, k + 1, st, cs)
  }

  /** The class ends at the first ']' after its start. */
  lemma {:induction false} ClassCloseIsFirst(f: seq<char>, k: nat, state: bv8, chset: seq<char>)
    requires k <= |f| && ClassFrom(f, k, state, chset).Success?
    ensures forall i :: k <= i < ClassFrom(f, k, state, chset).value.close ==> f[i] != ']'
    decreases |f| - k
  {
    if f[k] != ']' {
      var (st, cs) := ClassStep(f, k, state, chset).value;
      assert ClassFrom(f, k, state, chset) == ClassFrom(f, k + 1, st, cs);
      ClassCloseIsFirst(f, k + 1, st, cs);
    }
  }

  /** Writes the run lo..hi into chset from index j on, one character at a time;
      fails as soon as a write would fall outside the buffer. */
  method WriteRun(chset: array<char>, j0: nat, lo: char, hi: char) returns (r: Result<nat, ScanError>)
    requires lo <= hi && hi as int < 128
    requires chset.Length == ChsetCapacity && j0 <= ChsetCapacity
    modifies chset
    ensures j0 + |Run(lo, hi)| > ChsetCapacity ==> r == Failure(InvalidFormatString)
    ensures j0 + |Run(lo, hi)| <= ChsetCapacity ==>
              r == Success(j0 + |Run(lo, hi)|) && chset[..j0 + |Run(lo, hi)|] == old(chset[..j0]) + Run(lo, hi)
  {
    var j, d := j0, lo as int;
    while d <= hi as int
      invariant lo as int <= d <= hi as int + 1
      invariant j == j0 + (d - lo as int) && j <= ChsetCapacity
      invariant chset[..j] == old(chset[..j0]) + Run(lo, hi)[..d - lo as int]
      decreases hi as int - d
    {
      if j == ChsetCapacity {
        return Failure(InvalidFormatString);
      }
      chset[j] := d as char;
      assert Run(lo, hi)[..d + 1 - lo as int] == Run(lo, hi)[..d - lo as int] + [d as char];
      j, d := j + 1, d + 1;
    }
    assert Run(lo, hi)[..d - lo as int] == Run(lo, hi);
    return Success(j);
  }

  /** Appends c at index j of chset, or fails when the buffer is full. */
  method Append(chset: array<char>, j: nat, c: char) returns (r: Result<nat, ScanError>)
    requires chset.Length == ChsetCapacity && j <= ChsetCapacity
    modifies chset
    ensures j == ChsetCapacity ==> r == Failure(InvalidFormatString)
    ensures j < ChsetCapacity ==> r == Success(j + 1) && chset[..j + 1] == old(chset[..j]) + [c]
  {
    if j == ChsetCapacity {
      return Failure(InvalidFormatString);
    }
    chset[j] := c;
    return Success(j + 1);
  }

  /** One pass of the class loop's switch at position k. */
  method CompileClassChar(f: seq<char>, k: nat, state: bv8, chset: array<char>, j: nat)
    returns (r: Result<(bv8, nat), ScanError>)
    requires k < |f| && chset.Length == ChsetCapacity && j <= ChsetCapacity
    modifies chset
    ensures match ClassStep(f, k, state, old(chset[..j]))
            case Failure(e) => r == Failure(e)
            case Success((st, cs)) =>
              if |cs| > ChsetCapacity then r == Failure(InvalidFormatString)
              else r == Success((st, |cs|)) && chset[..|cs|] == cs
  {
    var c := f[k];
    if c == '^' && state & NegatedBit == 0 {
      return Success((state | NegatedBit, j));
    } else if c == '-' && At(f, k + 1) != '-' {
      return Success((state, j));
    } else if ClosesRun(c) && j == 0 {
      return Failure(InvalidFormatString);
    } else if ClosesRun(c) && chset[j - 1] == RunStart(c) {
      assert old(chset[..j])[..j - 1] == chset[..j - 1];
      var w := WriteRun(chset, j - 1, RunStart(c), c);
      return match w case Failure(e) => Failure(e) case Success(j') => Success((state, j'));
    } else {
      var w := Append(chset, j, c);
      return match w case Failure(e) => Failure(e) case Success(j') => Success((state, j'));
    }
  }

  /** The class loop as the source runs it: chset is the fixed buffer, j the write
      index, k0 the position after '['. On success it returns the new state, the
      new write index and the position of ']'. */
  method CompileClass(f: seq<char>, k0: nat, state0: bv8, chset: array<char>, j0: nat)
    returns (r: Result<(bv8, nat, nat), ScanError>)
    requires k0 <= |f| && chset.Length == ChsetCapacity && j0 <= ChsetCapacity
    modifies chset
    ensures match ClassFrom(f, k0, state0, old(chset[..j0]))
            case Failure(e) => r == Failure(e)
            case Success(cl) =>
              r == Success((cl.state, |cl.chset|, cl.close)) &&
              |cl.chset| <= ChsetCapacity && chset[..|cl.chset|] == cl.chset
  {
    var k: nat, state: bv8, j: nat := k0, state0, j0;
    while k < |f| && f[k] != ']'
      invariant k0 <= k <= |f| && j <= ChsetCapacity
      invariant ClassFrom(f, k, state, chset[..j]) == ClassFrom(f, k0, state0, old(chset[..j0]))
      decreases |f| - k
    {
      var step := CompileClassChar(f, k, state, chset, j);
      if step.Failure? {
        return Failure(step.error);
      }
      state, j := step.value.0, step.value.1;
      k := k + 1;
    }
    if k == |f| {
      return Failure(InvalidFormatString);
    }
    return Success((state, j, k));
  }

  /** A class's negation bit is set exactly when a '^' occurs before its ']';
      no other bit of the state byte changes. */
  lemma {:induction false} ClassNegation(f: seq<char>, k: nat, state: bv8, chset: seq<char>)
    requires k <= |f| && ClassFrom(f, k, state, chset).Success?
    ensures var cl := ClassFrom(f, k, state, chset).value;
            cl.state == if '^' in f[k..cl.close] then state | NegatedBit else state
    decreases |f| - k
  {
    var cl := ClassFrom(f, k, state, chset).value;
    if f[k] != ']' {
      var (st, cs) := ClassStep(f, k, state, chset).value;
      assert ClassFrom(f, k, state, chset) == ClassFrom(f, k + 1, st, cs);
      assert st == if f[k] == '^' then state | NegatedBit else state;
      ClassNegation(f, k + 1, st, cs);
      assert f[k..cl.close] == [f[k]] + f[k + 1..cl.close];
    }
  }

  /** One class character keeps what was written and adds itself, except for a
      '-' without a second '-' and a '^' that sets the negation bit, which
      leave the buffer as it was. */
  lemma ClassStepKeeps(f: seq<char>, k: nat, state: bv8, chset: seq<char>)
    requires k < |f| && ClassStep(f, k, state, chset).Success?
    ensures var (st, cs) := ClassStep(f, k, state, chset).value;
            (forall x :: x in chset ==> x in cs) &&
            (f[k] != '-' && f[k] != '^' ==> f[k] in cs) &&
            (f[k] == '^' && Has(state, NegatedBit) ==> '^' in cs) &&
            (f[k] == '-' && At(f, k + 1) == '-' ==> '-' in cs) &&
            (Has(state, NegatedBit) ==> Has(st, NegatedBit)) &&
            (f[k] == '^' ==> Has(st, NegatedBit)) &&
            // the first '^' and a '-' not followed by '-' store nothing
            (f[k] == '^' && !Has(state, NegatedBit) ==> cs == chset) &&
            (f[k] == '-' && At(f, k + 1) != '-' ==> cs == chset)
  {
    var c := f[k];
    if c == '^' {
      assert c != '-' && !ClosesRun(c);
    } else if c == '-' {
      assert !ClosesRun(c);
    } else if ClosesRun(c) && chset[|chset| - 1] == RunStart(c) {
      assert ClassStep(f, k, state, chset) == Success((state, chset[..|chset| - 1] + Run(RunStart(c), c)));
      RunKeeps(chset, c);
    } else {
      assert ClassStep(f, k, state, chset) == Success((state, chset + [c]));
    }
  }

  /** Completing a run keeps what was written: the run starts with the
      character it replaces and ends with the one that closes it. */
  lemma RunKeeps(chset: seq<char>, c: char)
    requires ClosesRun(c) && chset != [] && chset[|chset| - 1] == RunStart(c)
    ensures var cs := chset[..|chset| - 1] + Run(RunStart(c), c);
            (forall x :: x in chset ==> x in cs) && c in cs
  {
    var run := Run(RunStart(c), c);
    var n := |chset|;
    assert run[0] == RunStart(c) && run[|run| - 1] == c;
    assert chset == chset[..n - 1] + [chset[n - 1]];
  }

  /** One class character adds only itself, a '-', a '^', or characters of the run it closes. */
  lemma ClassStepSound(f: seq<char>, k: nat, state: bv8, chset: seq<char>)
    requires k < |f| && ClassStep(f, k, state, chset).Success?
    ensures var (st, cs) := ClassStep(f, k, state, chset).value;
            forall x :: x in cs ==> x in chset || x == f[k] || (ClosesRun(f[k]) && RunStart(f[k]) <= x <= f[k])
  {
    var c := f[k];
    if ClosesRun(c) && chset != [] && chset[|chset| - 1] == RunStart(c) {
      var run := Run(RunStart(c), c);
      forall x | x in run ensures RunStart(c) <= x <= c {
        var m :| 0 <= m < |run| && run[m] == x;
      }
      forall x | x in chset[..|chset| - 1] ensures x in chset {
        var m :| 0 <= m < |chset| - 1 && chset[m] == x;
      }
    }
  }

  /** The characters out keeps of a class text f[k..close] compiled from the
      state byte state and the buffer chset: everything already written; every
      class character except a '-' and a '^'; a '^' once the negation bit is
      set (before k or by an earlier '^'); a '-' followed by another '-'. */
  predicate Kept(f: seq<char>, k: nat, close: nat, state: bv8, chset: seq<char>, out: seq<char>)
    requires k <= close <= |f|
  {
    (forall c :: c in chset ==> c in out) &&
    (forall i :: k <= i < close && f[i] != '-' && f[i] != '^' ==> f[i] in out) &&
    (forall i :: k <= i < close && f[i] == '^' && (Has(state, NegatedBit) || '^' in f[k..i]) ==> '^' in out) &&
    (forall i :: k <= i < close && f[i] == '-' && At(f, i + 1) == '-' ==> '-' in out)
  }

  /** Compiling a class never loses a character already written, and writes
      every class character except a '-' (which is written only when another
      '-' follows it) and the '^' that sets the negation bit. */
  lemma {:induction false} ClassMembersKept(f: seq<char>, k: nat, state: bv8, chset: seq<char>)
    requires k <= |f| && ClassFrom(f, k, state, chset).Success?
    ensures var cl := ClassFrom(f, k, state, chset).value;
            Kept(f, k, cl.close, state, chset, cl.chset)
    decreases |f| - k
  {
    var cl := ClassFrom(f, k, state, chset).value;
    if f[k] != ']' {
      var (st, cs) := ClassStep(f, k, state, chset).value;
      assert ClassFrom(f, k, state, chset) == ClassFrom(f, k + 1, st, cs);
      ClassMembersKept(f, k + 1, st, cs);
      KeptStep(f, k, cl.close, state, chset, cl.chset);
    }
  }

  /** What the rest of the class keeps, after the character at k, extends to k. */
  lemma KeptStep(f: seq<char>, k: nat, close: nat, state: bv8, chset: seq<char>, out: seq<char>)
    requires k < close <= |f| && ClassStep(f, k, state, chset).Success?
    requires var (st, cs) := ClassStep(f, k, state, chset).value;
             Kept(f, k + 1, close, st, cs, out)
    ensures Kept(f, k, close, state, chset, out)
  {
    var (st, cs) := ClassStep(f, k, state, chset).value;
    ClassStepKeeps(f, k, state, chset);
    forall i | k + 1 <= i < close && f[i] == '^' && (Has(state, NegatedBit) || '^' in f[k..i])
      ensures Has(st, NegatedBit) || '^' in f[k + 1..i]
    {
      assert f[k..i] == [f[k]] + f[k + 1..i];
    }
  }

  /** Everything a class compiles to was written before, or occurs in the class
      text, or lies in the run of a 'z', 'Z' or '9' that occurs in it. */
  lemma {:induction false} ClassMembersSound(f: seq<char>, k: nat, state: bv8, chset: seq<char>)
    requires k <= |f| && ClassFrom(f, k, state, chset).Success?
    ensures var cl := ClassFrom(f, k, state, chset).value;
            forall c :: c in cl.chset ==>
              c in chset || c in f[k..cl.close] ||
              exists i :: k <= i < cl.close && ClosesRun(f[i]) && RunStart(f[i]) <= c <= f[i]
    decreases |f| - k
  {
    var cl := ClassFrom(f, k, state, chset).value;
    if f[k] != ']' {
      var (st, cs) := ClassStep(f, k, state, chset).value;
      assert ClassFrom(f, k, state, chset) == ClassFrom(f, k + 1, st, cs);
      ClassStepSound(f, k, state, chset);
      ClassMembersSound(f, k + 1, st, cs);
      assert f[k..cl.close] == [f[k]] + f[k + 1..cl.close];
    }
  }

  /** A class character that stands for itself alone. */
  predicate Plain(c: char) {
    c != '^' && c != '-' && !ClosesRun(c)
  }

  /** A class text without '^', '-', 'z', 'Z' or '9' that fits the buffer is
      written out as it stands, and the state byte is left alone. */
  lemma {:induction false} ClassVerbatim(f: seq<char>, k: nat, close: nat, state: bv8, chset: seq<char>)
    requires k <= close < |f| && f[close] == ']'
    requires forall i :: k <= i < close ==> f[i] != ']' && Plain(f[i])
    requires |chset| + (close - k) <= ChsetCapacity
    ensures ClassFrom(f, k, state, chset) == Success(Class(state, chset + f[k..close], close))
    decreases close - k
  {
    if k < close {
      var cs := chset + [f[k]];
      assert ClassStep(f, k, state, chset) == Success((state, cs));
      ClassVerbatim(f, k + 1, close, state, cs);
      assert cs + f[k + 1..close] == chset + f[k..close];
    } else {
      assert chset + f[k..close] == chset;
    }
  }

  /** "a-z", "A-Z" and "0-9", with or without the '-', write the whole inclusive run. */
  lemma {:induction false} RunShorthand(f: seq<char>, k: nat, state: bv8, chset: seq<char>, hi: char, dash: bool)
    requires ClosesRun(hi)
    requires var n := if dash then 3 else 2;
             k + n <= |f| && f[k] == RunStart(hi) && f[k + n - 1] == hi && (dash ==> f[k + 1] == '-')
    requires |chset| + |Run(RunStart(hi), hi)| <= ChsetCapacity
    ensures ClassFrom(f, k, state, chset)
              == ClassFrom(f, k + (if dash then 3 else 2), state, chset + Run(RunStart(hi), hi))
  {
    var lo := RunStart(hi);
    var cs := chset + [lo];
    assert ClassStep(f, k, state, chset) == Success((state, cs));
    assert ClassFrom(f, k, state, chset) == ClassFrom(f, k + 1, state, cs);
    var at := k + 1;
    if dash {
      assert ClassStep(f, k + 1, state, cs) == Success((state, cs));
      assert ClassFrom(f, k + 1, state, cs) == ClassFrom(f, k + 2, state, cs);
      at := k + 2;
    }
    assert cs[..|cs| - 1] == chset;
    assert ClassStep(f, at, state, cs) == Success((state, chset + Run(lo, hi)));
  }

  /** Only the negation bit of the incoming state byte matters to what a class
      compiles to. */
  lemma {:induction false} ClassIgnoresOtherBits(f: seq<char>, k: nat, st1: bv8, st2: bv8, chset: seq<char>)
    requires k <= |f| && Has(st1, NegatedBit) == Has(st2, NegatedBit)
    ensures var r1, r2 := ClassFrom(f, k, st1, chset), ClassFrom(f, k, st2, chset);
            r1.Success? == r2.Success? &&
            (r1.Success? ==> r1.value.chset == r2.value.chset && r1.value.close == r2.value.close &&
                             Has(r1.value.state, NegatedBit) == Has(r2.value.state, NegatedBit))
    decreases |f| - k
  {
    if k < |f| && f[k] != ']' {
      var s1, s2 := ClassStep(f, k, st1, chset), ClassStep(f, k, st2, chset);
      ClassStepIgnoresOtherBits(f, k, st1, st2, chset);
      if s1.Success? && |s1.value.1| <= ChsetCapacity {
        assert ClassFrom(f, k, st1, chset) == ClassFrom(f, k + 1, s1.value.0, s1.value.1);
        assert ClassFrom(f, k, st2, chset) == ClassFrom(f, k + 1, s2.value.0, s1.value.1);
        ClassIgnoresOtherBits(f, k + 1, s1.value.0, s2.value.0, s1.value.1);
      }
    }
  }

  lemma ClassStepIgnoresOtherBits(f: seq<char>, k: nat, st1: bv8, st2: bv8, chset: seq<char>)
    requires k < |f| && Has(st1, NegatedBit) == Has(st2, NegatedBit)
    ensures var s1, s2 := ClassStep(f, k, st1, chset), ClassStep(f, k, st2, chset);
            s1.Success? == s2.Success? &&
            (s1.Success? ==> s1.value.1 == s2.value.1 && Has(s1.value.0, NegatedBit) == Has(s2.value.0, NegatedBit))
  {
  }
}
