/** dd_vsscanf (dd_scanf.h:383-471): walks the input and the format together,
    skipping blanks on either side, matching literal characters and handing
    each '%' directive to the extent finder, the parser and the handler. */
module Driver {
  import opened Results
  import opened Text
  import opened Directive
  import opened Extent
  import opened SpecParser
  import opened Convert

  /** How a scan ends. Complete: one of the two texts ran out (the source then
      falls off the end of the function without a return value). Mismatch:
      the source's -1. Fault: the source would read or write out of bounds
      or read an indeterminate value; the error says which. */
  datatype Status = Complete | Mismatch | Fault(error: ScanError)

  /** The status and, in order, one store for each argument consumed. */
  datatype Outcome = Outcome(status: Status, writes: seq<Write>)

  /** One pass of the loop: the new format and input cursors and the store it
      makes, or the end of the scan. */
  datatype Step = Continue(fi: nat, bi: nat, store: Option<Write>) | Stop(status: Status)

  /** The directive at f[fi] == '%' is "%%". */
  predicate IsEscape(f: seq<char>, fi: nat)
    requires fi < |f|
  {
    f[fi] == '%' && At(f, fi + 1) == '%'
  }

  /** One pass of the loop at format position fi and input position bi. A
      directive whose type the parser never set stops with
      InvalidFormatString. The "%%" directive is the corrected one: it
      consumes the '%' it matches. */
  function StepAt(f: seq<char>, b: seq<char>, fi: nat, bi: nat): (r: Step)
    requires fi < |f| && bi < |b|
    // every pass moves at least one cursor forward and neither past its end
    ensures r.Continue? ==> fi <= r.fi <= |f| && bi <= r.bi <= |b| && (fi < r.fi || bi < r.bi)
    // a blank on either side is skipped, and only blanks are
    ensures IsEmpty(f[fi]) || IsEmpty(b[bi]) <==> r == Continue(if IsEmpty(f[fi]) then fi + 1 else fi, if IsEmpty(b[bi]) then bi + 1 else bi, None)
    // a literal character must match the input character, and then both move on
    ensures !IsEmpty(f[fi]) && !IsEmpty(b[bi]) && f[fi] != '%' ==>
              r == if f[fi] == b[bi] then Continue(fi + 1, bi + 1, None) else Stop(Mismatch)
    // "%%" matches exactly a '%' of the input
    ensures !IsEmpty(b[bi]) && IsEscape(f, fi) ==>
              r == if b[bi] == '%' then Continue(fi + 2, bi + 1, None) else Stop(Mismatch)
    // only a directive stores, and it moves the format cursor past its '%'
    ensures r.Continue? && r.store.Some? ==> f[fi] == '%' && fi < r.fi
  {
    var femp, bemp := IsEmpty(f[fi]), IsEmpty(b[bi]);
    if femp || bemp then
      Continue(if femp then fi + 1 else fi, if bemp then bi + 1 else bi, None)
    else if f[fi] == '%' then
      match GetReplacementSpec(f, fi)
      case None => Stop(Fault(InvalidFormatString))
      case Some(end) =>
        match ParseSpec(f, fi + 1, end)
        case Failure(e) => Stop(Fault(e))
        case Success(p) =>
          if Has(p.rep.state, EscapedBit) then
            if b[bi] != '%' then Stop(Mismatch) else Continue(p.next, bi + 1, None)
          else if p.rep.kind.None? then Stop(Fault(InvalidFormatString))
          else
            match Handle(p.rep, b, bi)
            case Failure(e) => Stop(Fault(e))
            case Success(h) => Continue(p.next, h.next, if Has(p.rep.state, IgnoredBit) then None else Some(h.write))
    else if f[fi] != b[bi] then Stop(Mismatch)
    else Continue(fi + 1, bi + 1, None)
  }

  /** The stores of one pass, as a sequence. */
  function Stores(store: Option<Write>): seq<Write> {
    if store.Some? then [store.value] else []
  }

  /** The number of '%' characters in f from position i on. */
  function PercentsFrom(f: seq<char>, i: nat): nat
    requires i <= |f|
    decreases |f| - i
  {
    if i == |f| then 0 else (if f[i] == '%' then 1 else 0) + PercentsFrom(f, i + 1)
  }

  /** Fewer '%' characters lie further on. */
  lemma {:induction false} PercentsShrink(f: seq<char>, i: nat, j: nat)
    requires i <= j <= |f|
    ensures PercentsFrom(f, j) <= PercentsFrom(f, i)
    ensures i < j && f[i] == '%' ==> PercentsFrom(f, j) < PercentsFrom(f, i)
    decreases j - i
  {
    if i < j {
      PercentsShrink(f, i + 1, j);
    }
  }

  /** The loop from cursors fi and bi on; it runs while neither text is used up.
      Each store belongs to a directive of its own, so there are no more stores
      than '%' characters left in the format. */
  function ScanFrom(f: seq<char>, b: seq<char>, fi: nat, bi: nat): (r: Outcome)
    requires fi <= |f| && bi <= |b|
    ensures |r.writes| <= PercentsFrom(f, fi)
    decreases (|f| - fi) + (|b| - bi)
  {
    if fi == |f| || bi == |b| then Outcome(Complete, [])
    else
      match StepAt(f, b, fi, bi)
      case Stop(st) => Outcome(st, [])
      case Continue(fi', bi', store) =>
        PercentsShrink(f, fi, fi');
        var rest := ScanFrom(f, b, fi', bi');
        Outcome(rest.status, Stores(store) + rest.writes)
  }

  /** dd_vsscanf(b, f, args): the outcome of scanning the input b with the
      format f; it stores at most once per '%' of the format. */
  function Scan(b: seq<char>, f: seq<char>): (r: Outcome)
    ensures |r.writes| <= PercentsFrom(f, 0)
  {
    ScanFrom(f, b, 0, 0)
  }

  /** The loop's first pass from (fi, bi) and the rest of the scan. */
  lemma ScanFromStep(f: seq<char>, b: seq<char>, fi: nat, bi: nat)
    requires fi < |f| && bi < |b|
    ensures var s := StepAt(f, b, fi, bi);
            (s.Stop? ==> ScanFrom(f, b, fi, bi) == Outcome(s.status, [])) &&
            (s.Continue? ==>
               ScanFrom(f, b, fi, bi) ==
               Outcome(ScanFrom(f, b, s.fi, s.bi).status, Stores(s.store) + ScanFrom(f, b, s.fi, s.bi).writes))
  {
  }

  /** The scan with the stores already made in front, from (fi, bi) on. */
  function Resume(f: seq<char>, b: seq<char>, fi: nat, bi: nat, writes: seq<Write>): Outcome
    requires fi <= |f| && bi <= |b|
  {
    var rest := ScanFrom(f, b, fi, bi);
    Outcome(rest.status, writes + rest.writes)
  }

  /** A pass that goes on leaves the scan unchanged once its store is made. */
  lemma ResumeContinue(f: seq<char>, b: seq<char>, fi: nat, bi: nat, writes: seq<Write>)
    requires fi < |f| && bi < |b| && StepAt(f, b, fi, bi).Continue?
    ensures var s := StepAt(f, b, fi, bi);
            Resume(f, b, s.fi, s.bi, writes + Stores(s.store)) == Resume(f, b, fi, bi, writes)
  {
    ScanFromStep(f, b, fi, bi);
    var s := StepAt(f, b, fi, bi);
    assert writes + (Stores(s.store) + ScanFrom(f, b, s.fi, s.bi).writes)
           == (writes + Stores(s.store)) + ScanFrom(f, b, s.fi, s.bi).writes;
  }

  /** A pass that stops ends the scan with the stores made so far. */
  lemma ResumeStop(f: seq<char>, b: seq<char>, fi: nat, bi: nat, writes: seq<Write>)
    requires fi < |f| && bi < |b| && StepAt(f, b, fi, bi).Stop?
    ensures Resume(f, b, fi, bi, writes) == Outcome(StepAt(f, b, fi, bi).status, writes)
  {
    ScanFromStep(f, b, fi, bi);
    assert writes + [] == writes;
  }

  /** The scan as the source runs it: the loop with one pass per iteration. */
  method Vsscanf(b: seq<char>, f: seq<char>) returns (r: Outcome)
    requires IsCString(b) && IsCString(f)
    ensures r == Scan(b, f)
  {
    var bi: nat, fi: nat := 0, 0;
    var writes: seq<Write> := [];
    assert [] + ScanFrom(f, b, 0, 0).writes == ScanFrom(f, b, 0, 0).writes;
    while bi != |b| && fi != |f|
      invariant bi <= |b| && fi <= |f|
      invariant Resume(f, b, fi, bi, writes) == Scan(b, f)
      decreases (|f| - fi) + (|b| - bi)
    {
      var step := Pass(f, b, fi, bi);
      match step {
        case Stop(st) =>
          ResumeStop(f, b, fi, bi, writes);
          return Outcome(st, writes);
        case Continue(fi', bi', store) =>
          ResumeContinue(f, b, fi, bi, writes);
          writes := writes + Stores(store);
          fi, bi := fi', bi';
      }
    }
    assert ScanFrom(f, b, fi, bi) == Outcome(Complete, []);
    assert writes + [] == writes;
    return Outcome(Complete, writes);
  }

  /** One pass of the loop body: blanks, then a directive or a literal. */
  method Pass(f: seq<char>, b: seq<char>, fi: nat, bi: nat) returns (r: Step)
    requires fi < |f| && bi < |b|
    ensures r == StepAt(f, b, fi, bi)
  {
    var bemp, femp := IsEmpty(b[bi]), IsEmpty(f[fi]);
    var fi', bi' := fi, bi;
    if bemp {
      bi' := bi' + 1;
    }
    if femp {
      fi' := fi' + 1;
    }
    if bemp || femp {
      return Continue(fi', bi', None);
    }
    if f[fi] == '%' {
      r := DirectivePass(f, b, fi, bi);
    } else if f[fi] != b[bi] {
      r := Stop(Mismatch);
    } else {
      r := Continue(fi + 1, bi + 1, None);
    }
  }

  /** The directive branch of the loop body. */
  method DirectivePass(f: seq<char>, b: seq<char>, fi: nat, bi: nat) returns (r: Step)
    requires fi < |f| && bi < |b| && f[fi] == '%' && !IsEmpty(b[bi])
    ensures r == StepAt(f, b, fi, bi)
  {
    var end := GetReplacement(f, fi);
    if end.None? {
      return Stop(Fault(InvalidFormatString));
    }
    var parsed := ParseReplacement(f, fi + 1, end.value);
    if parsed.Failure? {
      return Stop(Fault(parsed.error));
    }
    var rep := parsed.value.rep;
    if Has(rep.state, EscapedBit) {
      if b[bi] != '%' {
        return Stop(Mismatch);
      }
      return Continue(parsed.value.next, bi + 1, None);
    }
    if rep.kind.None? {
      return Stop(Fault(InvalidFormatString));
    }
    var h := HandleReplacement(rep, b, bi);
    if h.Failure? {
      return Stop(Fault(h.error));
    }
    r := Continue(parsed.value.next, h.value.next, if Has(rep.state, IgnoredBit) then None else Some(h.value.write));
  }
}

module DriverProperties {
  import opened Results
  import opened Text
  import opened Directive
  import opened Extent
  import opened SpecParser
  import opened CharConv
  import opened Convert
  import opened Driver

  /** The text with its blanks removed. */
  function Strip(s: seq<char>): (r: seq<char>)
    ensures |r| <= |s|
    ensures forall k :: 0 <= k < |r| ==> !IsEmpty(r[k])
  {
    if s == [] then []
    else if IsEmpty(s[0]) then Strip(s[1..])
    else [s[0]] + Strip(s[1..])
  }

  /** One of x and y is a prefix of the other. */
  predicate PrefixRelated(x: seq<char>, y: seq<char>) {
    x <= y || y <= x
  }

  lemma PrefixCons(c: char, x: seq<char>, y: seq<char>)
    ensures PrefixRelated([c] + x, [c] + y) <==> PrefixRelated(x, y)
  {
    if [c] + x <= [c] + y {
      assert x == ([c] + x)[1..] && ([c] + y)[1..|x| + 1] == x;
    }
    if [c] + y <= [c] + x {
      assert y == ([c] + y)[1..] && ([c] + x)[1..|y| + 1] == y;
    }
  }

  lemma PrefixHeads(c: char, d: char, x: seq<char>, y: seq<char>)
    requires c != d
    ensures !PrefixRelated([c] + x, [d] + y)
  {
    assert ([c] + x)[0] == c && ([d] + y)[0] == d;
  }

  /** A format without directives: blanks on either side are skipped, and the
      scan completes exactly when what is left of the format and of the input
      agree up to the shorter of the two; otherwise it stops with a mismatch.
      Nothing is stored. */
  lemma {:induction false} LiteralScan(f: seq<char>, b: seq<char>, fi: nat, bi: nat)
    requires fi <= |f| && bi <= |b|
    requires forall k :: fi <= k < |f| ==> f[k] != '%'
    ensures var r := ScanFrom(f, b, fi, bi);
            r.writes == [] &&
            (r.status == Complete <==> PrefixRelated(Strip(f[fi..]), Strip(b[bi..]))) &&
            (r.status != Complete ==> r.status == Mismatch)
    decreases (|f| - fi) + (|b| - bi)
  {
    if fi == |f| || bi == |b| {
      assert f[fi..] == [] || b[bi..] == [];
    } else {
      var fs, bs := f[fi..], b[bi..];
      assert fs[0] == f[fi] && fs[1..] == f[fi + 1..];
      assert bs[0] == b[bi] && bs[1..] == b[bi + 1..];
      var fe, be := IsEmpty(f[fi]), IsEmpty(b[bi]);
      if fe || be {
        var fi', bi' := if fe then fi + 1 else fi, if be then bi + 1 else bi;
        assert ScanFrom(f, b, fi, bi) == ScanFrom(f, b, fi', bi');
        LiteralScan(f, b, fi', bi');
        assert Strip(f[fi'..]) == Strip(fs);
        assert Strip(b[bi'..]) == Strip(bs);
      } else if f[fi] != b[bi] {
        assert ScanFrom(f, b, fi, bi) == Outcome(Mismatch, []);
        assert Strip(fs) == [f[fi]] + Strip(f[fi + 1..]);
        assert Strip(bs) == [b[bi]] + Strip(b[bi + 1..]);
        PrefixHeads(f[fi], b[bi], Strip(f[fi + 1..]), Strip(b[bi + 1..]));
      } else {
        assert ScanFrom(f, b, fi, bi) == ScanFrom(f, b, fi + 1, bi + 1);
        LiteralScan(f, b, fi + 1, bi + 1);
        assert Strip(fs) == [f[fi]] + Strip(f[fi + 1..]);
        assert Strip(bs) == [b[bi]] + Strip(b[bi + 1..]);
        PrefixCons(f[fi], Strip(f[fi + 1..]), Strip(b[bi + 1..]));
      }
    }
  }

  /** The format is "%d", or "%*d" when star holds. */
  predicate IntFormat(f: seq<char>, star: bool) {
    if star then |f| == 3 && f[0] == '%' && f[1] == '*' && f[2] == 'd'
    else |f| == 2 && f[0] == '%' && f[1] == 'd'
  }

  /** "%d" reads back the decimal text of an int of at most ten characters
      that starts the input and is ten characters long or not followed by a
      digit, stores it, and the scan completes; "%*d" reads the same text and
      stores nothing. */
  lemma ScanOneInt(f: seq<char>, star: bool, b: seq<char>, n: nat, neg: bool)
    requires IntFormat(f, star)
    requires var t := NumberText(n, neg, 10);
             |t| <= IntDefaultWidth && |t| <= |b| && b[..|t|] == t && RunEnds(b, |t|, IntDefaultWidth, 10)
    requires Lo(I32) <= (if neg then -(n as int) else n) <= Hi(I32)
    ensures Scan(b, f) == Outcome(Complete, if star then [] else [Int(I32, if neg then -(n as int) else n)])
  {
    var t := NumberText(n, neg, 10);
    var v := if neg then -(n as int) else n;
    var store := if star then None else Some(Int(I32, v));
    IntStep(f, star, b, n, neg);
    LastStep(f, b, |t|, store);
  }

  /** The one pass of "%d" or "%*d" over such an input. */
  lemma IntStep(f: seq<char>, star: bool, b: seq<char>, n: nat, neg: bool)
    requires IntFormat(f, star)
    requires var t := NumberText(n, neg, 10);
             |t| <= IntDefaultWidth && |t| <= |b| && b[..|t|] == t && RunEnds(b, |t|, IntDefaultWidth, 10)
    requires Lo(I32) <= (if neg then -(n as int) else n) <= Hi(I32)
    ensures var v := if neg then -(n as int) else n;
            StepAt(f, b, 0, 0) == Continue(|f|, |NumberText(n, neg, 10)|, if star then None else Some(Int(I32, v)))
  {
    var rep := Replacement(if star then IgnoredBit else 0, IntDefaultWidth, Some(SignedInt), []);
    var t := NumberText(n, neg, 10);
    var v := if neg then -(n as int) else n;
    IntDirective(f, star);
    IntInput(rep, b, n, neg);
    DirectiveStep(f, b, 0, 0, Parsed(rep, |f|), Handled(|t|, Int(I32, v)));
  }

  /** A first pass that uses up the format ends the scan. */
  lemma LastStep(f: seq<char>, b: seq<char>, bi: nat, store: Option<Write>)
    requires 0 < |f| && 0 < |b| && bi <= |b| && StepAt(f, b, 0, 0) == Continue(|f|, bi, store)
    ensures Scan(b, f) == Outcome(Complete, Stores(store))
  {
    assert ScanFrom(f, b, |f|, bi) == Outcome(Complete, []);
  }

  /** The directives "%d" and "%*d" as the extent finder and the parser see them. */
  lemma IntDirective(f: seq<char>, star: bool)
    requires IntFormat(f, star)
    ensures GetReplacementSpec(f, 0) == Some(|f|)
    ensures ParseSpec(f, 1, |f|) == Success(Parsed(Replacement(if star then IgnoredBit else 0, IntDefaultWidth, Some(SignedInt), []), |f|))
  {
    GetReplacementEnds(f, 0, |f|);
    if star {
      var r1 := Replacement(IgnoredBit, 0, None, []);
      assert Apply(Cleared, '*', 'd') == r1;
      assert ParseFrom(f, 1, 3, Cleared) == ParseFrom(f, 2, 3, r1);
      assert ParseFrom(f, 2, 3, r1) == ParseFrom(f, 3, 3, Apply(r1, 'd', '\0'));
    } else {
      assert ParseFrom(f, 1, 2, Cleared) == ParseFrom(f, 2, 2, Apply(Cleared, 'd', '\0'));
    }
  }

  /** The input side of ScanOneInt: the number is read and the cursor moves past it. */
  lemma IntInput(rep: Replacement, b: seq<char>, n: nat, neg: bool)
    requires rep.kind == Some(SignedInt) && rep.width == IntDefaultWidth && Tier(rep.state) == 0
    requires var t := NumberText(n, neg, 10);
             |t| <= IntDefaultWidth && |t| <= |b| && b[..|t|] == t && RunEnds(b, |t|, IntDefaultWidth, 10)
    requires Lo(I32) <= (if neg then -(n as int) else n) <= Hi(I32)
    ensures !IsEmpty(b[0])
    ensures Handle(rep, b, 0) == Success(Handled(|NumberText(n, neg, 10)|, Int(I32, if neg then -(n as int) else n)))
  {
    var t := NumberText(n, neg, 10);
    assert b[0] == t[0] by {
      assert b[..|t|][0] == b[0];
    }
    assert !IsEmpty(t[0]) by {
      assert IsDigitIn(t[0], 10) || t[0] == '-';
      assert !IsDigitIn('\n', 10) && !IsDigitIn('\r', 10) && !IsDigitIn('\t', 10) && !IsDigitIn(' ', 10);
    }
    assert SignedKind(Tier(rep.state)) == I32;
    assert b[0..|t|] == t;
    DecimalRoundTrip(rep, b, 0, n, neg);
  }

  /** The pass over a directive that is not "%%", whose type is set and
      whose conversion succeeds. */
  lemma DirectiveStep(f: seq<char>, b: seq<char>, fi: nat, bi: nat, p: Parsed, h: Handled)
    requires fi < |f| && bi < |b| && f[fi] == '%' && !IsEmpty(b[bi])
    requires GetReplacementSpec(f, fi).Some? && ParseSpec(f, fi + 1, GetReplacementSpec(f, fi).value) == Success(p)
    requires !Has(p.rep.state, EscapedBit) && p.rep.kind.Some? && Handle(p.rep, b, bi) == Success(h)
    ensures StepAt(f, b, fi, bi) == Continue(p.next, h.next, if Has(p.rep.state, IgnoredBit) then None else Some(h.write))
  {
  }

  /** The "%%" pass as written: it matches a '%' of the input but leaves the
      input cursor on it. Every other pass is the corrected one. */
  function StepAsWritten(f: seq<char>, b: seq<char>, fi: nat, bi: nat): (r: Step)
    requires fi < |f| && bi < |b|
    ensures r != StepAt(f, b, fi, bi) <==> !IsEmpty(b[bi]) && IsEscape(f, fi) && b[bi] == '%'
  {
    if !IsEmpty(b[bi]) && IsEscape(f, fi) && b[bi] == '%' then Continue(fi + 2, bi, None)
    else StepAt(f, b, fi, bi)
  }

  /** The format "%%x" against the input "%x": as written, the pass over
      "%%" leaves the input at its '%', which the next pass compares with
      'x' and rejects; with the '%' consumed the scan completes. */
  lemma EscapeLeavesPercent()
    ensures StepAsWritten("%%x", "%x", 0, 0) == Continue(2, 0, None)
    ensures StepAt("%%x", "%x", 2, 0) == Stop(Mismatch)
    ensures StepAt("%%x", "%x", 0, 0) == Continue(2, 1, None)
    ensures Scan("%x", "%%x") == Outcome(Complete, [])
  {
    var f, b := "%%x", "%x";
    assert IsEscape(f, 0) && !IsEmpty(b[0]);
    assert ScanFrom(f, b, 2, 1) == Outcome(Complete, []) by {
      assert StepAt(f, b, 2, 1) == Continue(3, 2, None);
    }
  }
}
