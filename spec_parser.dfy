/** dd_parse_replacement (dd_scanf.h:59-182): turns the specifier text of one
    directive, the characters from just after '%' up to the position
    dd_get_replacement found, into a Replacement record. */
module SpecParser {
  import opened Results
  import opened Text
  import opened Directive
  import opened ClassCompiler
  import opened CharConv

  predicate IsDecimal(c: char) {
    '0' <= c <= '9'
  }

  predicate IsTypeChar(c: char) {
    c == 'd' || c == 'i' || c == 'u' || c == 'f' || c == 'g' || c == 'F' || c == 'G' || c == 'e' ||
    c == 'E' || c == 'c' || c == 's' || c == 'x' || c == 'X' || c == 'o' || c == 'p' || c == 'b'
  }

  /** The characters the parser's switch accepts, apart from the class opener '['. */
  predicate IsSpecChar(c: char) {
    c == '*' || c == '+' || c == '.' || c == 'l' || c == 'h' || IsDecimal(c) || IsTypeChar(c)
  }

  function TypeOf(c: char): FormatType
    requires IsTypeChar(c)
  {
    match c
    case 'd' | 'i' => SignedInt
    case 'u' => UnsignedInt
    case 'g' | 'f' => LittleNormFloat
    case 'G' | 'F' => BigNormFloat
    case 'e' => LittleExpFloat
    case 'E' => BigExpFloat
    case 'c' => Character
    case 's' => String
    case 'x' => LittleHex
    case 'X' => BigHex
    case 'o' => OctalInt
    case 'p' => Pointer
    case _ => Boolean
  }

  /** The width a type character leaves, given the width parsed before it. */
  function TypeWidth(c: char, w: nat): nat
    requires IsTypeChar(c)
  {
    match c
    case 'd' | 'i' | 'u' => if w == 0 then IntDefaultWidth else w
    case 'g' | 'f' | 'G' | 'F' => FloatDefaultWidth
    case 'c' => if w == 0 then 1 else w
    case 'x' | 'X' => if w == 0 then 8 else w
    case 'o' => if w == 0 then 11 else w
    case 'p' => 16
    case _ => w
  }

  /** Appending decimal digit c to a size_t width. */
  function WidthStep(w: nat, c: char): nat
    requires IsDecimal(c)
  {
    (w * 10 + (c as nat - '0' as nat)) % SizeModulus
  }

  /** What a specifier character does to the state byte; next is the
      character after it, which 'l' and 'h' look at. */
  function StateAfter(st: bv8, c: char, next: char): (r: bv8)
    // bits are only ever set, and never the escape, negation or top bit
    ensures r | st == r && r & 0x91 == st & 0x91
    // only the flag and length characters touch the state
    ensures c != '*' && c != '+' && c != '.' && c != 'l' && c != 'h' ==> r == st
  {
    if c == '*' then st | IgnoredBit
    else if c == '+' then st | SignBit
    else if c == '.' then st | PrecisionBit
    else if c == 'l' then (if next == 'l' then st | LongBit else st)
    else if c == 'h' then st | (if next == 'h' then LongBit | ShortBit else ShortBit)
    else st
  }

  /** What a specifier character does to the width: a digit is appended, a
      type character sets its default. */
  function WidthAfter(w: nat, c: char): (r: nat)
    // the width stays a size_t
    ensures w < SizeModulus ==> r < SizeModulus
    // a width given before the type is kept, except by f, g, F, G and p
    ensures IsTypeChar(c) && w != 0 && c != 'f' && c != 'g' && c != 'F' && c != 'G' && c != 'p' ==> r == w
    // flag and length characters leave the width alone
    ensures !IsDecimal(c) && !IsTypeChar(c) ==> r == w
  {
    if IsDecimal(c) then WidthStep(w, c)
    else if IsTypeChar(c) then TypeWidth(c, w)
    else w
  }

  /** What a specifier character does to the type. */
  function KindAfter(kind: Option<FormatType>, c: char): (r: Option<FormatType>)
    // the type is set by a type character and then never unset
    ensures r.Some? <==> kind.Some? || IsTypeChar(c)
    ensures !IsTypeChar(c) ==> r == kind
  {
    if IsTypeChar(c) then Some(TypeOf(c)) else kind
  }

  /** What one specifier character does to the record. */
  function Apply(rep: Replacement, c: char, next: char): Replacement
    requires IsSpecChar(c)
  {
    rep.(state := StateAfter(rep.state, c, next), width := WidthAfter(rep.width, c), kind := KindAfter(rep.kind, c))
  }

  /** The record and the position the parser returns. */
  datatype Parsed = Parsed(rep: Replacement, next: nat)

  /** The parser's loop from position i on. The loop runs while i != end; a
      class can carry i past end, and then the loop goes on until a character
      it does not accept, at the latest the terminator. */
  function ParseFrom(f: seq<char>, i: nat, end: nat, rep: Replacement): (r: Result<Parsed, ScanError>)
    requires i <= |f| && end <= |f|
    ensures r.Success? ==> i <= r.value.next <= |f|
    decreases |f| - i
  {
    if i == end then Success(Parsed(rep, end))
    else if i < |f| && f[i] == '[' then
      match ClassFrom(f, i + 1, rep.state, rep.chset)
      case Failure(e) => Failure(e)
      case Success(cl) =>
        ParseFrom(f, cl.close + 1, end, rep.(state := cl.state, kind := Some(Range), chset := cl.chset))
    else if i < |f| && IsSpecChar(f[i]) then
      ParseFrom(f, i + 1, end, Apply(rep, f[i], At(f, i + 1)))
    else
      Success(Parsed(rep, i))
  }

  /** The parse stops at end, or at a character it does not accept. */
  lemma {:induction false} ParseFromStops(f: seq<char>, i: nat, end: nat, rep: Replacement)
    requires i <= |f| && end <= |f|
    ensures var r := ParseFrom(f, i, end, rep);
            r.Success? ==> r.value.next == end || (!IsSpecChar(At(f, r.value.next)) && At(f, r.value.next) != '[')
    decreases |f| - i
  {
    if i == end {
    } else if i < |f| && f[i] == '[' {
      match ClassFrom(f, i + 1, rep.state, rep.chset)
      case Failure(_) =>
      case Success(cl) =>
        ParseFromStops(f, cl.close + 1, end, rep.(state := cl.state, kind := Some(Range), chset := cl.chset));
    } else if i < |f| && IsSpecChar(f[i]) {
      ParseFromStops(f, i + 1, end, Apply(rep, f[i], At(f, i + 1)));
    }
  }

  /** dd_parse_replacement(rep, f + beg, f + end). */
  function ParseSpec(f: seq<char>, beg: nat, end: nat): (r: Result<Parsed, ScanError>)
    requires beg <= end <= |f|
    // an escaped directive: exactly the escape bit, width 0, and the end is returned
    ensures At(f, beg) == '%' ==> r == Success(Parsed(Replacement(EscapedBit, 0, None, []), end))
    ensures r.Success? ==> beg <= r.value.next <= |f|
  {
    if At(f, beg) == '%' then Success(Parsed(Cleared.(state := EscapedBit), end))
    else ParseFrom(f, beg, end, Cleared)
  }

  /** One pass of the parser's switch for a character other than '['. */
  method SwitchChar(state0: bv8, width0: nat, kind0: Option<FormatType>, c: char, next: char)
    returns (state: bv8, width: nat, kind: Option<FormatType>)
    requires IsSpecChar(c)
    ensures state == StateAfter(state0, c, next) && width == WidthAfter(width0, c) && kind == KindAfter(kind0, c)
  {
    state, width, kind := state0, width0, kind0;
    if c == '*' {
      state := state | IgnoredBit;
    } else if c == '+' {
      state := state | SignBit;
    } else if IsDecimal(c) {
      width := (width * 10 + (c as nat - '0' as nat)) % SizeModulus;
    } else if c == '.' {
      state := state | PrecisionBit;
    } else if c == 'l' {
      if next == c {
        state := state | LongBit;
      }
    } else if c == 'h' {
      if next == c {
        state := state | 0x60;
      } else {
        state := state | 0x40;
      }
    } else if c == 'd' || c == 'i' {
      kind := Some(SignedInt);
      if width == 0 { width := IntDefaultWidth; }
    } else if c == 'u' {
      kind := Some(UnsignedInt);
      if width == 0 { width := IntDefaultWidth; }
    } else if c == 'g' || c == 'f' {
      kind := Some(LittleNormFloat);
      width := FloatDefaultWidth;
    } else if c == 'G' || c == 'F' {
      kind := Some(BigNormFloat);
      width := FloatDefaultWidth;
    } else if c == 'e' {
      kind := Some(LittleExpFloat);
    } else if c == 'E' {
      kind := Some(BigExpFloat);
    } else if c == 'c' {
      kind := Some(Character);
      if width == 0 { width := 1; }
    } else if c == 's' {
      kind := Some(String);
    } else if c == 'x' {
      kind := Some(LittleHex);
      if width == 0 { width := 8; }
    } else if c == 'X' {
      kind := Some(BigHex);
      if width == 0 { width := 8; }
    } else if c == 'o' {
      kind := Some(OctalInt);
      if width == 0 { width := 11; }
    } else if c == 'p' {
      kind := Some(Pointer);
      width := 16;
    } else {
      kind := Some(Boolean);
    }
  }

  /** The parser as the source runs it: state, width and type are updated in
      place and the class is written into a fresh 128-character buffer. */
  method ParseReplacement(f: seq<char>, beg: nat, end: nat) returns (r: Result<Parsed, ScanError>)
    requires beg <= end <= |f|
    ensures r == ParseSpec(f, beg, end)
  {
    if At(f, beg) == '%' {
      return Success(Parsed(Replacement(EscapedBit, 0, None, []), end));
    }
    var state: bv8, width: nat, kind: Option<FormatType> := 0, 0, None;
    var chset := new char[ChsetCapacity];
    var j: nat := 0;
    var i: nat := beg;
    ghost var cs: seq<char> := [];
    ghost var goal := ParseFrom(f, beg, end, Cleared);
    while i != end
      invariant i <= |f| && j <= ChsetCapacity && chset.Length == ChsetCapacity
      invariant |cs| == j && forall k :: 0 <= k < j ==> chset[k] == cs[k]
      invariant ParseFrom(f, i, end, Replacement(state, width, kind, cs)) == goal
      decreases |f| - i
    {
      var step;
      step, cs := ParsePass(f, i, end, state, width, kind, chset, j, cs);
      match step
      case PassFailed(e) =>
        return Failure(e);
      case PassStopped =>
        assert chset[..j] == cs;
        return Success(Parsed(Replacement(state, width, kind, chset[..j]), i));
      case PassOn(state', width', kind', j', i') =>
        state, width, kind, j, i := state', width', kind', j', i';
    }
    assert chset[..j] == cs;
    return Success(Parsed(Replacement(state, width, kind, chset[..j]), end));
  }

  /** What one pass of the parser's loop ends in: an error, the loop's exit at
      a character the switch does not accept, or the loop going on with the
      record's new fields, the buffer's fill and the position. */
  datatype Pass = PassFailed(error: ScanError) | PassStopped | PassOn(state: bv8, width: nat, kind: Option<FormatType>, j: nat, i: nat)

  /** One pass of the parser's loop at i != end. cs is what the buffer holds
      up to j, before and after. */
  method ParsePass(f: seq<char>, i: nat, end: nat, state: bv8, width: nat, kind: Option<FormatType>,
                   chset: array<char>, j: nat, ghost cs: seq<char>)
    returns (p: Pass, ghost cs': seq<char>)
    requires i <= |f| && end <= |f| && i != end
    requires chset.Length == ChsetCapacity && j <= ChsetCapacity
    requires |cs| == j && forall k :: 0 <= k < j ==> chset[k] == cs[k]
    modifies chset
    ensures p.PassFailed? ==> ParseFrom(f, i, end, Replacement(state, width, kind, cs)) == Failure(p.error)
    ensures p.PassStopped? ==>
              cs' == cs && (forall k :: 0 <= k < j ==> chset[k] == cs[k]) &&
              ParseFrom(f, i, end, Replacement(state, width, kind, cs)) == Success(Parsed(Replacement(state, width, kind, cs), i))
    ensures p.PassOn? ==>
              p.j <= ChsetCapacity && i < p.i <= |f| &&
              |cs'| == p.j && (forall k :: 0 <= k < p.j ==> chset[k] == cs'[k]) &&
              ParseFrom(f, p.i, end, Replacement(p.state, p.width, p.kind, cs'))
                == ParseFrom(f, i, end, Replacement(state, width, kind, cs))
  {
    var c := At(f, i);
    if c == '[' {
      var cl;
      cl, cs' := ClassCase(f, i, end, state, width, kind, chset, j, cs);
      if cl.Failure? {
        return PassFailed(cl.error), cs';
      }
      return PassOn(cl.value.0, width, Some(Range), cl.value.1, cl.value.2 + 1), cs';
    } else if IsSpecChar(c) {
      var state', width', kind' := CharCase(f, i, end, state, width, kind, cs);
      return PassOn(state', width', kind', j, i + 1), cs;
    } else {
      ParseFromChar(f, i, end, Replacement(state, width, kind, cs));
      return PassStopped, cs;
    }
  }

  /** The parser's case for a flag, width or type character at i: the switch
      updates the record and the loop goes on at i + 1. */
  method CharCase(f: seq<char>, i: nat, end: nat, state0: bv8, width0: nat, kind0: Option<FormatType>,
                  ghost cs: seq<char>)
    returns (state: bv8, width: nat, kind: Option<FormatType>)
    requires i <= |f| && end <= |f| && i != end && IsSpecChar(At(f, i))
    ensures ParseFrom(f, i + 1, end, Replacement(state, width, kind, cs))
              == ParseFrom(f, i, end, Replacement(state0, width0, kind0, cs))
  {
    ParseFromChar(f, i, end, Replacement(state0, width0, kind0, cs));
    state, width, kind := SwitchChar(state0, width0, kind0, At(f, i), At(f, i + 1));
  }

  /** The parser's '[' case: the class is compiled into the buffer, the type
      becomes a range, and the loop goes on after the class's ']' (returned
      as the new position, with the state byte and the buffer's fill). cs is
      what the buffer holds up to j, before and after. */
  method ClassCase(f: seq<char>, i: nat, end: nat, state: bv8, width: nat, kind: Option<FormatType>,
                   chset: array<char>, j: nat, ghost cs: seq<char>)
    returns (r: Result<(bv8, nat, nat), ScanError>, ghost cs': seq<char>)
    requires i < |f| && end <= |f| && i != end && f[i] == '['
    requires chset.Length == ChsetCapacity && j <= ChsetCapacity
    requires |cs| == j && forall k :: 0 <= k < j ==> chset[k] == cs[k]
    modifies chset
    ensures r.Failure? ==> ParseFrom(f, i, end, Replacement(state, width, kind, cs)) == Failure(r.error)
    ensures r.Success? ==>
              r.value.1 <= ChsetCapacity && i < r.value.2 < |f| &&
              |cs'| == r.value.1 && (forall k :: 0 <= k < r.value.1 ==> chset[k] == cs'[k]) &&
              ParseFrom(f, r.value.2 + 1, end, Replacement(r.value.0, width, Some(Range), cs'))
                == ParseFrom(f, i, end, Replacement(state, width, kind, cs))
  {
    assert chset[..j] == cs;
    ghost var rep := Replacement(state, width, kind, cs);
    ghost var spec := ClassFrom(f, i + 1, state, cs);
    r := CompileClass(f, i + 1, state, chset, j);
    if r.Failure? {
      ParseFromClassFails(f, i, end, rep);
      return r, cs;
    }
    cs' := spec.value.chset;
    ParseFromClass(f, i, end, rep, spec.value);
    assert Replacement(r.value.0, width, Some(Range), cs')
           == rep.(state := spec.value.state, kind := Some(Range), chset := spec.value.chset);
    forall k | 0 <= k < r.value.1 ensures chset[k] == cs'[k] {
      assert chset[k] == chset[..r.value.1][k];
    }
  }

  /** A class at i that compiles: the parser goes on after its ']' with the
      class's state byte and characters, and the type set to a range. */
  lemma ParseFromClass(f: seq<char>, i: nat, end: nat, rep: Replacement, cl: Class)
    requires i < |f| && end <= |f| && i != end && f[i] == '['
    requires ClassFrom(f, i + 1, rep.state, rep.chset) == Success(cl)
    ensures ParseFrom(f, i, end, rep) ==
              ParseFrom(f, cl.close + 1, end, rep.(state := cl.state, kind := Some(Range), chset := cl.chset))
  {
  }

  /** A class at i that does not compile fails the parse with its error. */
  lemma ParseFromClassFails(f: seq<char>, i: nat, end: nat, rep: Replacement)
    requires i < |f| && end <= |f| && i != end && f[i] == '['
    requires ClassFrom(f, i + 1, rep.state, rep.chset).Failure?
    ensures ParseFrom(f, i, end, rep) == Failure(ClassFrom(f, i + 1, rep.state, rep.chset).error)
  {
  }

  /** One character of the switch, or the end of the parse at a character it
      does not accept. */
  lemma ParseFromChar(f: seq<char>, i: nat, end: nat, rep: Replacement)
    requires i <= |f| && end <= |f| && i != end && At(f, i) != '['
    ensures IsSpecChar(At(f, i)) ==>
              ParseFrom(f, i, end, rep) == ParseFrom(f, i + 1, end, Apply(rep, At(f, i), At(f, i + 1)))
    ensures !IsSpecChar(At(f, i)) ==> ParseFrom(f, i, end, rep) == Success(Parsed(rep, i))
  {
    if i == |f| {
      assert !IsSpecChar('\0');
    }
  }

  /** Some 'l' or 'h' in f[beg..p] is directly followed by the same letter. */
  predicate Doubled(f: seq<char>, beg: nat, p: nat)
    requires beg <= p <= |f|
  {
    exists i :: beg <= i < p && (f[i] == 'l' || f[i] == 'h') && At(f, i + 1) == f[i]
  }

  /** f[beg..p] holds only flag, width and type characters, and parsing stops at p:
      p is the end, or a character the parser does not accept. */
  predicate PlainUpTo(f: seq<char>, beg: nat, p: nat, end: nat)
    requires beg <= p <= end <= |f|
  {
    (forall i :: beg <= i < p ==> IsSpecChar(f[i])) &&
    (p == end || (!IsSpecChar(At(f, p)) && At(f, p) != '['))
  }

  /** How the state byte st relates to the byte st0 it started from after the
      characters s: '*', '+', '.' and 'h' set their bits when they occur, the
      long bit is set by a doubled letter, and bits 0, 4 and 7 are untouched. */
  predicate FlagsAfter(st0: bv8, st: bv8, s: seq<char>, doubled: bool) {
    (Has(st, IgnoredBit) <==> Has(st0, IgnoredBit) || '*' in s) &&
    (Has(st, SignBit) <==> Has(st0, SignBit) || '+' in s) &&
    (Has(st, PrecisionBit) <==> Has(st0, PrecisionBit) || '.' in s) &&
    (Has(st, ShortBit) <==> Has(st0, ShortBit) || 'h' in s) &&
    (Has(st, LongBit) <==> Has(st0, LongBit) || doubled) &&
    st & 0x91 == st0 & 0x91
  }

  /** One specifier character, on the state byte alone. */
  lemma StateFlags(st: bv8, c: char, next: char)
    ensures FlagsAfter(st, StateAfter(st, c, next), [c], (c == 'l' || c == 'h') && next == c)
  {
    assert ('*' in [c]) == (c == '*') && ('+' in [c]) == (c == '+') && ('.' in [c]) == (c == '.') && ('h' in [c]) == (c == 'h');
  }

  lemma FlagsAfterChain(st0: bv8, st1: bv8, st2: bv8, c: char, s: seq<char>, d1: bool, d2: bool)
    requires FlagsAfter(st0, st1, [c], d1) && FlagsAfter(st1, st2, s, d2)
    ensures FlagsAfter(st0, st2, [c] + s, d1 || d2)
  {
  }

  lemma DoubledStep(f: seq<char>, i: nat, p: nat)
    requires i < p <= |f|
    ensures Doubled(f, i, p) <==> ((f[i] == 'l' || f[i] == 'h') && At(f, i + 1) == f[i]) || Doubled(f, i + 1, p)
  {
    if Doubled(f, i, p) && !((f[i] == 'l' || f[i] == 'h') && At(f, i + 1) == f[i]) {
      var k :| i <= k < p && (f[k] == 'l' || f[k] == 'h') && At(f, k + 1) == f[k];
      assert k != i;
    }
    if Doubled(f, i + 1, p) {
      var k :| i + 1 <= k < p && (f[k] == 'l' || f[k] == 'h') && At(f, k + 1) == f[k];
    }
  }

  /** The flags of f[i..p] are those of f[i] followed by those of f[i + 1..p]. */
  lemma FlagsStep(f: seq<char>, i: nat, p: nat, rep: Replacement, st: bv8)
    requires i < p <= |f| && IsSpecChar(f[i])
    requires FlagsAfter(Apply(rep, f[i], At(f, i + 1)).state, st, f[i + 1..p], Doubled(f, i + 1, p))
    ensures Apply(rep, f[i], At(f, i + 1)).chset == rep.chset
    ensures FlagsAfter(rep.state, st, f[i..p], Doubled(f, i, p))
  {
    var c := f[i];
    StateFlags(rep.state, c, At(f, i + 1));
    FlagsAfterChain(rep.state, Apply(rep, c, At(f, i + 1)).state, st, c, f[i + 1..p],
                    (c == 'l' || c == 'h') && At(f, i + 1) == c, Doubled(f, i + 1, p));
    assert f[i..p] == [c] + f[i + 1..p];
    DoubledStep(f, i, p);
  }

  /** Over a run of flag, width and type characters, each flag bit ends up set
      exactly when its character occurs (or it was set before), and the escape,
      negation and top bits and the class are left alone. */
  lemma {:induction false} PlainRunFlags(f: seq<char>, i: nat, p: nat, end: nat, rep: Replacement)
    requires i <= p <= end <= |f| && PlainUpTo(f, i, p, end)
    ensures var r := ParseFrom(f, i, end, rep);
            r.Success? && r.value.next == p && r.value.rep.chset == rep.chset &&
            FlagsAfter(rep.state, r.value.rep.state, f[i..p], Doubled(f, i, p))
    decreases p - i
  {
    if i < p {
      var c := f[i];
      var rep' := Apply(rep, c, At(f, i + 1));
      ParseFromChar(f, i, end, rep);
      PlainRunFlags(f, i + 1, p, end, rep');
      FlagsStep(f, i, p, rep, ParseFrom(f, i + 1, end, rep').value.rep.state);
    } else {
      assert !Doubled(f, i, p);
      if i < end {
        assert !(i < |f| && f[i] == '[');
      }
    }
  }

  /** The width a sequence of characters leaves, starting from w: each decimal
      digit is appended in base ten, modulo 2^64; other characters are skipped. */
  function DigitFold(w: nat, s: seq<char>): nat
    decreases |s|
  {
    if s == [] then w else DigitFold(if IsDecimal(s[0]) then WidthStep(w, s[0]) else w, s[1..])
  }

  /** Over a run of flag and width characters without a type character, the
      width is the digits folded in, and the type stays as it was. */
  lemma {:induction false} PlainRunWidth(f: seq<char>, i: nat, p: nat, end: nat, rep: Replacement)
    requires i <= p <= end <= |f| && PlainUpTo(f, i, p, end)
    requires forall k :: i <= k < p ==> !IsTypeChar(f[k])
    ensures var r := ParseFrom(f, i, end, rep);
            r.Success? && r.value.rep.width == DigitFold(rep.width, f[i..p]) && r.value.rep.kind == rep.kind
    decreases p - i
  {
    if i < p {
      PlainRunWidth(f, i + 1, p, end, Apply(rep, f[i], At(f, i + 1)));
      assert f[i..p][1..] == f[i + 1..p];
    } else if i < end {
      assert !(i < |f| && f[i] == '[');
    }
  }

  /** The decimal digits of s, in order. */
  function Digits(s: seq<char>): (ds: seq<char>)
    ensures forall k :: 0 <= k < |ds| ==> IsDecimal(ds[k])
  {
    if s == [] then []
    else if IsDecimal(s[|s| - 1]) then Digits(s[..|s| - 1]) + [s[|s| - 1]]
    else Digits(s[..|s| - 1])
  }

  lemma {:induction false} DigitFoldSnoc(w: nat, s: seq<char>, c: char)
    ensures DigitFold(w, s + [c]) == if IsDecimal(c) then WidthStep(DigitFold(w, s), c) else DigitFold(w, s)
    decreases |s|
  {
    if s != [] {
      assert (s + [c])[1..] == s[1..] + [c];
      DigitFoldSnoc(if IsDecimal(s[0]) then WidthStep(w, s[0]) else w, s[1..], c);
    }
  }

  lemma ModTenStep(v: nat, d: nat)
    ensures ((v % SizeModulus) * 10 + d) % SizeModulus == (v * 10 + d) % SizeModulus
  {
    var q := v / SizeModulus;
    assert v == q * SizeModulus + v % SizeModulus;
    assert v * 10 + d == (q * 10) * SizeModulus + ((v % SizeModulus) * 10 + d);
  }

  /** The width parsed from a run without type characters is the base-ten value
      of its digits read left to right, modulo 2^64 (width is a size_t). */
  lemma {:induction false} DigitFoldValue(s: seq<char>)
    ensures DigitFold(0, s) == ValueOf(Digits(s), 10) % SizeModulus
    decreases |s|
  {
    if s != [] {
      var s', c := s[..|s| - 1], s[|s| - 1];
      assert s == s' + [c];
      DigitFoldSnoc(0, s', c);
      DigitFoldValue(s');
      if IsDecimal(c) {
        var ds := Digits(s') + [c];
        assert ds[..|ds| - 1] == Digits(s');
        ModTenStep(ValueOf(Digits(s'), 10), DigitValue(c));
      }
    }
  }

  /** Flags and length tier of a specifier of flag, width and type characters:
      '*', '+' and '.' set their bits exactly when they occur; the tier is 1 for
      a doubled 'l' ("ll"), 2 for 'h', 3 for "hh" (a single 'l' leaves 0);
      the escape and negation bits stay clear and nothing is written to the
      class. Parsing returns p, the end or the first character it rejects. */
  lemma ParseFlags(f: seq<char>, beg: nat, p: nat, end: nat)
    requires beg <= p <= end <= |f| && At(f, beg) != '%' && PlainUpTo(f, beg, p, end)
    ensures var r := ParseSpec(f, beg, end);
            r.Success? && r.value.next == p && r.value.rep.chset == [] &&
            var st := r.value.rep.state;
            (Has(st, IgnoredBit) <==> '*' in f[beg..p]) &&
            (Has(st, SignBit) <==> '+' in f[beg..p]) &&
            (Has(st, PrecisionBit) <==> '.' in f[beg..p]) &&
            !Has(st, EscapedBit) && !Has(st, NegatedBit) && !Has(st, 0x80) &&
            Tier(st) == (if Doubled(f, beg, p) then 1 else 0) + (if 'h' in f[beg..p] then 2 else 0)
  {
    PlainRunFlags(f, beg, p, end, Cleared);
    var st := ParseFrom(f, beg, end, Cleared).value.rep.state;
    TierOfBits(st);
  }

  lemma TierOfBits(st: bv8)
    ensures Tier(st) == (if Has(st, LongBit) then 1 else 0) + (if Has(st, ShortBit) then 2 else 0)
  {
  }

  /** The width of a specifier of flag and width characters only is the
      base-ten value of its digits modulo 2^64, and no type is set. */
  lemma ParseWidth(f: seq<char>, beg: nat, end: nat)
    requires beg <= end <= |f| && At(f, beg) != '%' && PlainUpTo(f, beg, end, end)
    requires forall k :: beg <= k < end ==> !IsTypeChar(f[k])
    ensures var r := ParseSpec(f, beg, end);
            r.Success? && r.value.rep.kind == None &&
            r.value.rep.width == ValueOf(Digits(f[beg..end]), 10) % SizeModulus
  {
    PlainRunWidth(f, beg, end, end, Cleared);
    DigitFoldValue(f[beg..end]);
  }

  /** A directive of flags and width followed by one type character t: the
      type follows t, and the width is the parsed value W except that, when W
      is 0, d/i/u give 10, c gives 1, x/X give 8 and o gives 11; f/g/F/G
      always give 8 and p always gives 16; e/E/s/b keep W. */
  lemma ParseTyped(f: seq<char>, beg: nat, t: nat)
    requires beg <= t < |f| && At(f, beg) != '%' && IsTypeChar(f[t])
    requires forall k {:trigger IsSpecChar(f[k])} {:trigger IsTypeChar(f[k])} :: beg <= k < t ==> IsSpecChar(f[k]) && !IsTypeChar(f[k])
    ensures var r := ParseSpec(f, beg, t + 1);
            var w := ValueOf(Digits(f[beg..t]), 10) % SizeModulus;
            var c := f[t];
            r.Success? && r.value.next == t + 1 && r.value.rep.kind == Some(TypeOf(c)) &&
            DefaultWidths(c, w, r.value.rep.width)
  {
    PlainRunWidth(f, beg, t, t, Cleared);
    DigitFoldValue(f[beg..t]);
    var pre := ParseFrom(f, beg, t, Cleared).value.rep;
    assert pre.width == ValueOf(Digits(f[beg..t]), 10) % SizeModulus;
    PlainRunGoesOn(f, beg, t, t + 1, Cleared);
    ParseTypeChar(f, t, pre);
    TypeWidthTable(f[t], pre.width);
  }

  /** A type character as the last character of a specifier. */
  lemma ParseTypeChar(f: seq<char>, t: nat, rep: Replacement)
    requires t < |f| && IsTypeChar(f[t])
    ensures ParseFrom(f, t, t + 1, rep) == Success(Parsed(rep.(kind := Some(TypeOf(f[t])), width := TypeWidth(f[t], rep.width)), t + 1))
  {
    var c := f[t];
    assert c != '*' && c != '+' && c != '.' && c != 'l' && c != 'h' && !IsDecimal(c) && c != '[';
    var post := rep.(kind := Some(TypeOf(c)), width := TypeWidth(c, rep.width));
    assert Apply(rep, c, At(f, t + 1)) == post;
    assert ParseFrom(f, t, t + 1, rep) == ParseFrom(f, t + 1, t + 1, post);
  }

  /** The width table of the type characters, given the parsed width w. */
  predicate DefaultWidths(c: char, w: nat, width: nat) {
    (c == 'd' || c == 'i' || c == 'u' ==> width == if w == 0 then 10 else w) &&
    (c == 'c' ==> width == if w == 0 then 1 else w) &&
    (c == 'x' || c == 'X' ==> width == if w == 0 then 8 else w) &&
    (c == 'o' ==> width == if w == 0 then 11 else w) &&
    (c == 'f' || c == 'g' || c == 'F' || c == 'G' ==> width == 8) &&
    (c == 'p' ==> width == 16) &&
    (c == 'e' || c == 'E' || c == 's' || c == 'b' ==> width == w)
  }

  lemma TypeWidthTable(c: char, w: nat)
    requires IsTypeChar(c)
    ensures DefaultWidths(c, w, TypeWidth(c, w))
  {
  }

  /** Parsing a plain run up to p and then on to end is parsing from p on with
      the record the run leaves. */
  lemma {:induction false} PlainRunGoesOn(f: seq<char>, i: nat, p: nat, end: nat, rep: Replacement)
    requires i <= p <= end <= |f|
    requires forall k :: i <= k < p ==> IsSpecChar(f[k])
    ensures ParseFrom(f, i, p, rep).Success?
    ensures ParseFrom(f, i, end, rep) == ParseFrom(f, p, end, ParseFrom(f, i, p, rep).value.rep)
    decreases p - i
  {
    if i < p {
      PlainRunGoesOn(f, i + 1, p, end, Apply(rep, f[i], At(f, i + 1)));
    }
  }

  /** A directive of flags and width followed by a class "[...]": the type is
      Range, the class buffer holds what the class compiles to, the negation
      bit is set exactly when a '^' occurs in the class, the width is the
      parsed value and the escape bit stays clear. */
  lemma ParseClassDirective(f: seq<char>, beg: nat, t: nat)
    requires beg <= t < |f| && At(f, beg) != '%' && f[t] == '['
    requires forall k {:trigger IsSpecChar(f[k])} {:trigger IsTypeChar(f[k])} :: beg <= k < t ==> IsSpecChar(f[k]) && !IsTypeChar(f[k])
    requires ClassFrom(f, t + 1, 0, []).Success?
    ensures var cl := ClassFrom(f, t + 1, 0, []).value;
            var r := ParseSpec(f, beg, cl.close + 1);
            r.Success? && r.value.next == cl.close + 1 && r.value.rep.kind == Some(Range) &&
            r.value.rep.chset == cl.chset &&
            r.value.rep.width == ValueOf(Digits(f[beg..t]), 10) % SizeModulus &&
            (Has(r.value.rep.state, NegatedBit) <==> '^' in f[t + 1..cl.close]) &&
            !Has(r.value.rep.state, EscapedBit)
  {
    PlainPrefix(f, beg, t);
    var pre := ParseFrom(f, beg, t, Cleared).value.rep;
    ClassAfterPrefix(f, beg, t, pre);
    ClassDirectiveBits(f, t, pre);
  }

  /** The parse of a plain run up to t followed by a class at t is the class
      compiled on top of the record the run leaves; the class compiles as it
      does from a cleared state byte. */
  lemma ClassAfterPrefix(f: seq<char>, beg: nat, t: nat, pre: Replacement)
    requires beg <= t < |f| && At(f, beg) != '%' && f[t] == '['
    requires forall k {:trigger IsSpecChar(f[k])} :: beg <= k < t ==> IsSpecChar(f[k])
    requires ParseFrom(f, beg, t, Cleared).Success? && pre == ParseFrom(f, beg, t, Cleared).value.rep
    requires pre.chset == [] && !Has(pre.state, NegatedBit)
    requires ClassFrom(f, t + 1, 0, []).Success?
    ensures ClassFrom(f, t + 1, pre.state, []).Success?
    ensures var cl0 := ClassFrom(f, t + 1, 0, []).value;
            var cl := ClassFrom(f, t + 1, pre.state, []).value;
            cl.chset == cl0.chset && cl.close == cl0.close &&
            ParseSpec(f, beg, cl0.close + 1) ==
              Success(Parsed(pre.(state := cl.state, kind := Some(Range), chset := cl.chset), cl0.close + 1))
  {
    ClassIgnoresOtherBits(f, t + 1, pre.state, 0, []);
    var end := ClassFrom(f, t + 1, pre.state, []).value.close + 1;
    PlainRunGoesOn(f, beg, t, end, Cleared);
    ParseClassStep(f, t, end, pre);
  }

  /** The negation bit after the class, from a record where it and the
      escape bit were clear. */
  lemma ClassDirectiveBits(f: seq<char>, t: nat, pre: Replacement)
    requires t < |f| && !Has(pre.state, NegatedBit) && !Has(pre.state, EscapedBit)
    requires ClassFrom(f, t + 1, pre.state, []).Success?
    ensures var cl := ClassFrom(f, t + 1, pre.state, []).value;
            (Has(cl.state, NegatedBit) <==> '^' in f[t + 1..cl.close]) && !Has(cl.state, EscapedBit)
  {
    ClassNegation(f, t + 1, pre.state, []);
  }

  /** A run of flag and width characters before a class or a type: no class
      written, no type, escape and negation bits clear, and the width read. */
  lemma PlainPrefix(f: seq<char>, beg: nat, t: nat)
    requires beg <= t <= |f|
    requires forall k {:trigger IsSpecChar(f[k])} {:trigger IsTypeChar(f[k])} :: beg <= k < t ==> IsSpecChar(f[k]) && !IsTypeChar(f[k])
    ensures var r := ParseFrom(f, beg, t, Cleared);
            r.Success? && r.value.rep.chset == [] && r.value.rep.kind == None &&
            !Has(r.value.rep.state, NegatedBit) && !Has(r.value.rep.state, EscapedBit) &&
            r.value.rep.width == ValueOf(Digits(f[beg..t]), 10) % SizeModulus
  {
    PlainRunFlags(f, beg, t, t, Cleared);
    PlainRunWidth(f, beg, t, t, Cleared);
    DigitFoldValue(f[beg..t]);
  }

  /** A class at position t, closing at end - 1, ends the parse at end with
      the compiled class and the type Range. */
  lemma ParseClassStep(f: seq<char>, t: nat, end: nat, pre: Replacement)
    requires t < |f| && f[t] == '[' && ClassFrom(f, t + 1, pre.state, pre.chset).Success?
    requires end == ClassFrom(f, t + 1, pre.state, pre.chset).value.close + 1
    ensures var cl := ClassFrom(f, t + 1, pre.state, pre.chset).value;
            ParseFrom(f, t, end, pre) == Success(Parsed(pre.(state := cl.state, kind := Some(Range), chset := cl.chset), end))
  {
  }
}
