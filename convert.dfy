/** dd_handle_replacement (dd_scanf.h:192-347): converts the input at one
    position according to a parsed directive and moves the input cursor. */
module Convert {
  import opened Results
  import opened Text
  import opened Directive
  import opened CharConv

  /** The integer destinations: int, long long, short, signed char and their
      unsigned partners, with the usual LP64 widths. */
  datatype IntKind = I32 | I64 | I16 | I8 | U32 | U64 | U16 | U8

  predicate IsSigned(k: IntKind) {
    k == I32 || k == I64 || k == I16 || k == I8
  }

  function Lo(k: IntKind): int {
    match k
    case I32 => -0x8000_0000
    case I64 => -0x8000_0000_0000_0000
    case I16 => -0x8000
    case I8 => -0x80
    case _ => 0
  }

  function Hi(k: IntKind): int {
    match k
    case I32 => 0x7fff_ffff
    case I64 => 0x7fff_ffff_ffff_ffff
    case I16 => 0x7fff
    case I8 => 0x7f
    case U32 => 0xffff_ffff
    case U64 => 0xffff_ffff_ffff_ffff
    case U16 => 0xffff
    case U8 => 0xff
  }

  /** The destination a length tier selects for 'd' / 'i' (and for 'u' with unsigned). */
  function SignedKind(tier: nat): IntKind {
    if tier == 0 then I32 else if tier == 1 then I64 else if tier == 2 then I16 else I8
  }

  function UnsignedKind(tier: nat): IntKind {
    if tier == 0 then U32 else if tier == 1 then U64 else if tier == 2 then U16 else U8
  }

  /** What a conversion stores through its argument pointer when it has one.
      Nothing: a class consumes an argument but does not write it. */
  datatype Write = Int(kind: IntKind, value: int) | Chars(text: seq<char>) | Flag(truth: bool) | Nothing

  /** The new input cursor and the store. */
  datatype Handled = Handled(next: nat, write: Write)

  /** from_chars into a variable of the given kind that starts at 0, reading
      at most width characters from first; the variable is stored whether or
      not the conversion succeeded. */
  function ReadInt(b: seq<char>, first: nat, width: nat, base: nat, kind: IntKind): (r: Handled)
    requires IsBase(base)
    ensures r.next == first || (first < r.next <= first + width && r.next <= |b|)
    // nothing matched: the cursor stays and the variable keeps its 0
    ensures r.next == first ==> r.write == Int(kind, 0)
  {
    var fc := FromChars(b, first, first + width, base, IsSigned(kind), Lo(kind), Hi(kind));
    Handled(fc.ptr, Int(kind, fc.value.GetOr(0)))
  }

  /** The end of a string conversion started at pos: the run of non-blank
      characters, cut after width characters when width is not 0. The
      terminator is not blank, so a run that reaches it is copied past the
      end of the input; the model reports EndOfRange there. */
  function StringFrom(b: seq<char>, pos: nat, k: nat, width: nat): (r: Result<nat, ScanError>)
    requires pos <= k <= |b| && (width != 0 ==> k - pos <= width)
    ensures r.Success? ==> k <= r.value <= |b|
    ensures r.Success? ==> forall j :: k <= j < r.value ==> !IsEmpty(b[j])
    ensures r.Success? ==> (width != 0 && r.value - pos == width) || (r.value < |b| && IsEmpty(b[r.value]))
    ensures r.Failure? ==> r.error == EndOfRange
    decreases |b| - k
  {
    if width != 0 && k - pos >= width then Success(k)
    else if k == |b| then Failure(EndOfRange)
    else if IsEmpty(b[k]) then Success(k)
    else StringFrom(b, pos, k + 1, width)
  }

  /** dd_handle_replacement(rep, b + pos, p) for a directive whose type was
      set: the new cursor and what is stored through p; with p null the same
      cursor results and nothing is stored. The character case is the
      corrected one: the cursor moves past the characters copied, assigned
      or not. */
  function Handle(rep: Replacement, b: seq<char>, pos: nat): (r: Result<Handled, ScanError>)
    requires pos <= |b| && rep.kind.Some?
    ensures r.Success? ==> pos <= r.value.next <= |b|
  {
    var w := rep.width;
    match rep.kind.value
    case SignedInt => Success(ReadInt(b, pos, w, 10, SignedKind(Tier(rep.state))))
    case UnsignedInt => Success(ReadInt(b, pos, w, 10, UnsignedKind(Tier(rep.state))))
    case BigHex | LittleHex =>
      if pos + 2 > |b| then Failure(EndOfRange) else Success(ReadInt(b, pos + 2, w, 16, U32))
    case OctalInt => Success(ReadInt(b, pos, w, 8, U32))
    case Pointer => Success(ReadInt(b, pos, w, 16, U64))
    case Character =>
      if pos + w > |b| then Failure(EndOfRange)
      else Success(Handled(pos + w, Chars(b[pos..pos + w])))
    case String =>
      (match StringFrom(b, pos, pos, w)
       case Failure(e) => Failure(e)
       case Success(k) => Success(Handled(k, Chars(b[pos..k]))))
    case Boolean =>
      var t := At(b, pos) == 't';
      var n := pos + (if t then 4 else 5);
      if n > |b| then Failure(EndOfRange) else Success(Handled(n, Flag(t)))
    case Range => Success(Handled(pos, Nothing))
    case _ => Failure(FloatingPoint)
  }

  /** The handler as the source runs it; the string conversions copy one
      character at a time into the destination. */
  method HandleReplacement(rep: Replacement, b: seq<char>, pos: nat) returns (r: Result<Handled, ScanError>)
    requires pos <= |b| && rep.kind.Some?
    ensures r == Handle(rep, b, pos)
  {
    var w := rep.width;
    match rep.kind.value {
      case SignedInt =>
        r := Success(ReadInt(b, pos, w, 10, SignedKind(Tier(rep.state))));
      case UnsignedInt =>
        r := Success(ReadInt(b, pos, w, 10, UnsignedKind(Tier(rep.state))));
      case BigHex =>
        r := if pos + 2 > |b| then Failure(EndOfRange) else Success(ReadInt(b, pos + 2, w, 16, U32));
      case LittleHex =>
        r := if pos + 2 > |b| then Failure(EndOfRange) else Success(ReadInt(b, pos + 2, w, 16, U32));
      case OctalInt =>
        r := Success(ReadInt(b, pos, w, 8, U32));
      case Pointer =>
        r := Success(ReadInt(b, pos, w, 16, U64));
      case Character =>
        if pos + w > |b| {
          return Failure(EndOfRange);
        }
        r := Success(Handled(pos + w, Chars(b[pos..pos + w])));
      case String =>
        r := CopyString(b, pos, w);
      case Boolean =>
        var t := At(b, pos) == 't';
        var n := if t then pos + 4 else pos + 5;
        if n > |b| {
          return Failure(EndOfRange);
        }
        r := Success(Handled(n, Flag(t)));
      case Range =>
        r := Success(Handled(pos, Nothing));
      case _ =>
        r := Failure(FloatingPoint);
    }
  }

  /** The string conversion's two loops: unbounded when width is 0, at most
      width characters otherwise. */
  method CopyString(b: seq<char>, pos: nat, width: nat) returns (r: Result<Handled, ScanError>)
    requires pos <= |b|
    ensures r == match StringFrom(b, pos, pos, width)
                 case Failure(e) => Failure(e)
                 case Success(k) => Success(Handled(k, Chars(b[pos..k])))
  {
    var out: seq<char> := [];
    var k := pos;
    if width == 0 {
      while !IsEmpty(At(b, k))
        invariant pos <= k <= |b|
        invariant out == b[pos..k]
        invariant StringFrom(b, pos, k, 0) == StringFrom(b, pos, pos, 0)
        decreases |b| - k
      {
        if k == |b| {
          // the terminator is copied and the loop reads on past the input
          return Failure(EndOfRange);
        }
        out := out + [b[k]];
        k := k + 1;
      }
    } else {
      var i: nat := 0;
      while i < width && !IsEmpty(At(b, k))
        invariant k == pos + i && k <= |b| && i <= width
        invariant out == b[pos..k]
        invariant StringFrom(b, pos, k, width) == StringFrom(b, pos, pos, width)
        decreases width - i
      {
        if k == |b| {
          return Failure(EndOfRange);
        }
        out := out + [b[k]];
        k := k + 1;
        i := i + 1;
      }
    }
    return Success(Handled(k, Chars(out)));
  }

  /** ReadInt stores what from_chars produced, or 0 when it produced nothing. */
  lemma ReadIntOf(b: seq<char>, first: nat, width: nat, base: nat, kind: IntKind, ptr: nat, value: Option<int>)
    requires IsBase(base)
    requires FromChars(b, first, first + width, base, IsSigned(kind), Lo(kind), Hi(kind)) == FromCharsResult(ptr, value)
    ensures ReadInt(b, first, width, base, kind) == Handled(ptr, Int(kind, value.GetOr(0)))
  {
  }

  /** The integer cases of the handler are from_chars reads: 'x' and 'X'
      after skipping two characters. */
  lemma HandleReadsInt(rep: Replacement, b: seq<char>, pos: nat)
    requires pos <= |b| && rep.kind.Some?
    ensures rep.kind == Some(OctalInt) ==> Handle(rep, b, pos) == Success(ReadInt(b, pos, rep.width, 8, U32))
    ensures rep.kind == Some(Pointer) ==> Handle(rep, b, pos) == Success(ReadInt(b, pos, rep.width, 16, U64))
    ensures (rep.kind == Some(BigHex) || rep.kind == Some(LittleHex)) && pos + 2 <= |b| ==>
              Handle(rep, b, pos) == Success(ReadInt(b, pos + 2, rep.width, 16, U32))
    ensures rep.kind == Some(UnsignedInt) ==>
              Handle(rep, b, pos) == Success(ReadInt(b, pos, rep.width, 10, UnsignedKind(Tier(rep.state))))
    ensures rep.kind == Some(SignedInt) ==>
              Handle(rep, b, pos) == Success(ReadInt(b, pos, rep.width, 10, SignedKind(Tier(rep.state))))
  {
  }

  /** ReadInt reads back the text of a number that fits the kind. */
  lemma ReadsBack(b: seq<char>, first: nat, n: nat, neg: bool, base: nat, width: nat, k: IntKind)
    requires IsBase(base) && (neg ==> IsSigned(k))
    requires var t := NumberText(n, neg, base);
             |t| <= width && first + |t| <= |b| && b[first..first + |t|] == t &&
             RunEnds(b, first + |t|, first + width, base)
    requires Lo(k) <= (if neg then -(n as int) else n) <= Hi(k)
    ensures ReadInt(b, first, width, base, k)
              == Handled(first + |NumberText(n, neg, base)|, Int(k, if neg then -(n as int) else n))
  {
    FromCharsRoundTrip(b, first, n, neg, base, width, IsSigned(k), Lo(k), Hi(k));
  }

  /** Round trip for 'd', 'i' and 'u': the decimal text of a number that fits
      the destination the length tier selects, at most width characters long
      and filling the width or followed by a non-digit, is read back whole
      and stored. */
  lemma DecimalRoundTrip(rep: Replacement, b: seq<char>, pos: nat, n: nat, neg: bool)
    requires rep.kind == Some(SignedInt) || rep.kind == Some(UnsignedInt)
    requires neg ==> rep.kind == Some(SignedInt)
    requires var t := NumberText(n, neg, 10);
             |t| <= rep.width && pos + |t| <= |b| && b[pos..pos + |t|] == t && RunEnds(b, pos + |t|, pos + rep.width, 10)
    requires var k := if rep.kind == Some(SignedInt) then SignedKind(Tier(rep.state)) else UnsignedKind(Tier(rep.state));
             Lo(k) <= (if neg then -(n as int) else n) <= Hi(k)
    ensures var k := if rep.kind == Some(SignedInt) then SignedKind(Tier(rep.state)) else UnsignedKind(Tier(rep.state));
            Handle(rep, b, pos) == Success(Handled(pos + |NumberText(n, neg, 10)|, Int(k, if neg then -(n as int) else n)))
  {
    var k := if rep.kind == Some(SignedInt) then SignedKind(Tier(rep.state)) else UnsignedKind(Tier(rep.state));
    var v := if neg then -(n as int) else n;
    assert ReadInt(b, pos, rep.width, 10, k) == Handled(pos + |NumberText(n, neg, 10)|, Int(k, v)) by {
      ReadsBack(b, pos, n, neg, 10, rep.width, k);
    }
    assert Handle(rep, b, pos) == Success(ReadInt(b, pos, rep.width, 10, k)) by {
      HandleReadsInt(rep, b, pos);
    }
  }

  /** The digits of n in the base stand at first in b, no more of them than
      width, and the run of digits ends with them. */
  predicate DigitsAt(b: seq<char>, first: nat, n: nat, base: nat, width: nat)
    requires IsBase(base)
  {
    var t := Render(n, base);
    |t| <= width && first + |t| <= |b| && b[first..first + |t|] == t && RunEnds(b, first + |t|, first + width, base)
  }

  /** ReadInt reads back the digits of a non-negative number that fits the kind. */
  lemma DigitsReadBack(b: seq<char>, first: nat, n: nat, base: nat, width: nat, k: IntKind)
    requires IsBase(base)
    requires DigitsAt(b, first, n, base, width)
    requires Lo(k) <= n <= Hi(k)
    ensures ReadInt(b, first, width, base, k) == Handled(first + |Render(n, base)|, Int(k, n))
  {
    assert NumberText(n, false, base) == Render(n, base);
    ReadsBack(b, first, n, false, base, width, k);
  }

  /** Round trip for 'x' and 'X': the two characters at the cursor are skipped
      unread (meant to be "0x"), then the hexadecimal text of a 32-bit
      unsigned number is read back whole. */
  lemma HexRoundTrip(rep: Replacement, b: seq<char>, pos: nat, n: nat)
    requires rep.kind == Some(BigHex) || rep.kind == Some(LittleHex)
    requires DigitsAt(b, pos + 2, n, 16, rep.width)
    requires n <= Hi(U32)
    ensures Handle(rep, b, pos) == Success(Handled(pos + 2 + |Render(n, 16)|, Int(U32, n)))
  {
    HexReadsInt(rep, b, pos);
    DigitsReadBack(b, pos + 2, n, 16, rep.width, U32);
  }

  /** 'x' and 'X' read a 32-bit unsigned hexadecimal number after the two
      characters they skip. */
  lemma HexReadsInt(rep: Replacement, b: seq<char>, pos: nat)
    requires rep.kind == Some(BigHex) || rep.kind == Some(LittleHex)
    requires pos + 2 <= |b|
    ensures Handle(rep, b, pos) == Success(ReadInt(b, pos + 2, rep.width, 16, U32))
  {
  }

  /** Round trip for 'o': the octal text of a 32-bit unsigned number is read
      back whole. */
  lemma OctalRoundTrip(rep: Replacement, b: seq<char>, pos: nat, n: nat)
    requires rep.kind == Some(OctalInt)
    requires DigitsAt(b, pos, n, 8, rep.width)
    requires n <= Hi(U32)
    ensures Handle(rep, b, pos) == Success(Handled(pos + |Render(n, 8)|, Int(U32, n)))
  {
    OctalReadsInt(rep, b, pos);
    DigitsReadBack(b, pos, n, 8, rep.width, U32);
  }

  /** 'o' reads a 32-bit unsigned octal number. */
  lemma OctalReadsInt(rep: Replacement, b: seq<char>, pos: nat)
    requires rep.kind == Some(OctalInt) && pos <= |b|
    ensures Handle(rep, b, pos) == Success(ReadInt(b, pos, rep.width, 8, U32))
  {
  }

  /** Round trip for 'p': the hexadecimal text (without "0x") of a 64-bit
      unsigned number is read back whole. */
  lemma PointerRoundTrip(rep: Replacement, b: seq<char>, pos: nat, n: nat)
    requires rep.kind == Some(Pointer)
    requires DigitsAt(b, pos, n, 16, rep.width)
    requires n <= Hi(U64)
    ensures Handle(rep, b, pos) == Success(Handled(pos + |Render(n, 16)|, Int(U64, n)))
  {
    PointerReadsInt(rep, b, pos);
    DigitsReadBack(b, pos, n, 16, rep.width, U64);
  }

  /** 'p' reads a 64-bit unsigned hexadecimal number. */
  lemma PointerReadsInt(rep: Replacement, b: seq<char>, pos: nat)
    requires rep.kind == Some(Pointer) && pos <= |b|
    ensures Handle(rep, b, pos) == Success(ReadInt(b, pos, rep.width, 16, U64))
  {
  }

  /** A number that does not fit its destination is not stored: the
      destination keeps the 0 it started with, and the cursor still moves
      past all the digits. */
  lemma OutOfRangeStoresZero(rep: Replacement, b: seq<char>, pos: nat, n: nat)
    requires rep.kind == Some(UnsignedInt)
    requires DigitsAt(b, pos, n, 10, rep.width)
    requires n > Hi(UnsignedKind(Tier(rep.state)))
    ensures Handle(rep, b, pos) == Success(Handled(pos + |Render(n, 10)|, Int(UnsignedKind(Tier(rep.state)), 0)))
  {
    var k := UnsignedKind(Tier(rep.state));
    TooLargeReadsZero(b, pos, n, rep.width, k);
    assert Handle(rep, b, pos) == Success(ReadInt(b, pos, rep.width, 10, k)) by {
      HandleReadsInt(rep, b, pos);
    }
  }

  lemma TooLargeReadsZero(b: seq<char>, pos: nat, n: nat, width: nat, k: IntKind)
    requires !IsSigned(k)
    requires DigitsAt(b, pos, n, 10, width)
    requires n > Hi(k)
    ensures ReadInt(b, pos, width, 10, k) == Handled(pos + |Render(n, 10)|, Int(k, 0))
  {
    var ds := Render(n, 10);
    assert NumberText(n, false, 10) == ds;
    ReadsText(b, pos, ds, false, 10, width, false, Lo(k), Hi(k));
    ReadIntOf(b, pos, width, 10, k, pos + |ds|, None);
  }

  /** A string conversion ends where the run of non-blank characters ends,
      or after width characters when width is not 0. */
  lemma {:induction false} StringStopsAt(b: seq<char>, pos: nat, k: nat, e: nat, width: nat)
    requires pos <= k <= e <= |b| && (width != 0 ==> e - pos <= width)
    requires forall j :: k <= j < e ==> !IsEmpty(b[j])
    requires (width != 0 && e - pos == width) || (e < |b| && IsEmpty(b[e]))
    ensures StringFrom(b, pos, k, width) == Success(e)
    decreases e - k
  {
    if k < e {
      StringStopsAt(b, pos, k + 1, e, width);
    }
  }

  /** A string conversion whose run of non-blank characters reaches the end
      of the input within the width copies the terminator and reads on. */
  lemma {:induction false} StringOverrun(b: seq<char>, pos: nat, k: nat, width: nat)
    requires pos <= k <= |b| && (width == 0 || |b| - pos < width)
    requires forall j :: k <= j < |b| ==> !IsEmpty(b[j])
    ensures StringFrom(b, pos, k, width) == Failure(EndOfRange)
    decreases |b| - k
  {
    if k < |b| {
      StringOverrun(b, pos, k + 1, width);
    }
  }

  /** A word followed by a blank is copied whole by 's', or its first width
      characters when it is longer and width is not 0; the cursor moves past
      what was copied. */
  lemma StringReadsWord(rep: Replacement, pre: seq<char>, word: seq<char>, rest: seq<char>)
    requires rep.kind == Some(String)
    requires forall j :: 0 <= j < |word| ==> !IsEmpty(word[j])
    requires rest != [] && IsEmpty(rest[0])
    ensures var m := if rep.width == 0 || |word| <= rep.width then |word| else rep.width;
            Handle(rep, pre + word + rest, |pre|) == Success(Handled(|pre| + m, Chars(word[..m])))
  {
    var b := pre + word + rest;
    var m := if rep.width == 0 || |word| <= rep.width then |word| else rep.width;
    forall j | |pre| <= j < |pre| + m ensures !IsEmpty(b[j]) {
      assert b[j] == word[j - |pre|];
    }
    if m == |word| {
      assert b[|pre| + m] == rest[0];
    }
    StringStopsAt(b, |pre|, |pre|, |pre| + m, rep.width);
    assert b[|pre|..|pre| + m] == word[..m];
  }

  /** 'b' reads "true" as true and "false" as false, moving past the word;
      it looks only at the first character. */
  lemma BooleanReadsWord(rep: Replacement, pre: seq<char>, truth: bool, rest: seq<char>)
    requires rep.kind == Some(Boolean)
    ensures var word := if truth then "true" else "false";
            Handle(rep, pre + word + rest, |pre|) == Success(Handled(|pre| + |word|, Flag(truth)))
  {
    var word := if truth then "true" else "false";
    assert (pre + word + rest)[|pre|] == word[0];
  }

  /** The discard flag does not change what a conversion reads: the cursor
      and the value are those of the same directive without '*'. */
  lemma DiscardReadsAlike(rep: Replacement, b: seq<char>, pos: nat)
    requires pos <= |b| && rep.kind.Some?
    ensures Handle(rep.(state := rep.state | IgnoredBit), b, pos) == Handle(rep, b, pos)
  {
    assert Tier(rep.state | IgnoredBit) == Tier(rep.state);
  }

  /** 'b' looks at one character: 't' stores true and moves four places on,
      anything else stores false and moves five; a class leaves the cursor
      where it is and writes nothing. */
  lemma BooleanAndRange(rep: Replacement, b: seq<char>, pos: nat)
    requires pos <= |b|
    ensures rep.kind == Some(Boolean) && Handle(rep, b, pos).Success? ==>
              var h := Handle(rep, b, pos).value;
              (h.write == Flag(true) <==> At(b, pos) == 't') && h.write.Flag? &&
              h.next == pos + (if At(b, pos) == 't' then 4 else 5)
    ensures rep.kind == Some(Boolean) && Handle(rep, b, pos).Failure? ==> pos + (if At(b, pos) == 't' then 4 else 5) > |b|
    ensures rep.kind == Some(Range) ==> Handle(rep, b, pos) == Success(Handled(pos, Nothing))
  {
  }

  /** Where the source's character case leaves the cursor: memcpy returns its
      destination, so when there is an argument the cursor becomes the
      argument's buffer instead of a position in the input. */
  datatype Cursor = InInput(pos: nat) | InDestination

  function CharacterAsWritten(pos: nat, width: nat, slot: bool): (r: Cursor)
    // the input cursor survives only when there is no destination
    ensures r.InInput? <==> !slot
    ensures r.InInput? ==> r.pos == pos + width
  {
    if slot then InDestination else InInput(pos + width)
  }

  /** As written, an assigned 'c' loses the input cursor while a suppressed
      one moves it past the characters; the corrected handler moves it past
      them in both cases and copies exactly those characters. */
  lemma CharacterCursorLost(rep: Replacement, b: seq<char>, pos: nat)
    requires rep.kind == Some(Character) && pos + rep.width <= |b|
    ensures CharacterAsWritten(pos, rep.width, false) == InInput(Handle(rep, b, pos).value.next)
    ensures CharacterAsWritten(pos, rep.width, true) != InInput(Handle(rep, b, pos).value.next)
    ensures Handle(rep, b, pos) == Success(Handled(pos + rep.width, Chars(b[pos..pos + rep.width])))
  {
  }
}
