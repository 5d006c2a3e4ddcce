/** The spellings of AArch64 registers. */
module Registers {
  import opened Wrappers
  import opened Texts

  datatype RegisterClass = Gpr64 | Gpr32 | Fpr64 | Fpr32 | Simd128 | Nzcv

  datatype PhysicalRegister =
    | X(number: U8)
    | W(number: U8)
    | D(number: U8)
    | S(number: U8)
    | Q(number: U8)
    | Sp
    | Flags

  datatype Register = Virtual(id: U32, kind: RegisterClass) | Physical(reg: PhysicalRegister)

  function Print(r: Register): string {
    match r
    case Virtual(id, Fpr64) => "vd" + Decimal(id)
    case Virtual(id, Fpr32) => "vs" + Decimal(id)
    case Virtual(id, Simd128) => "vq" + Decimal(id)
    case Virtual(id, _) => "vr" + Decimal(id)
    case Physical(X(number)) => "x" + Decimal(number)
    case Physical(W(number)) => "w" + Decimal(number)
    case Physical(D(number)) => "d" + Decimal(number)
    case Physical(S(number)) => "s" + Decimal(number)
    case Physical(Q(number)) => "q" + Decimal(number)
    case Physical(Sp) => "sp"
    case Physical(Flags) => "nzcv"
  }

  /** A virtual register of a class with a spelling, when `number` is one. */
  function VirtualOf(number: string, kind: RegisterClass): (r: Option<Register>) {
    match ParseUnsigned(number, 0x1_0000_0000)
    case None => None
    case Some(id) => Some(Virtual(id, kind))
  }

  /** The number after a one-letter prefix, up to 31. */
  function NumberAfter(text: string, prefix: char): (r: Option<U8>)
    ensures r.Some? ==> r.value <= 31
  {
    if text == "" || text[0] != prefix then None
    else
      match ParseUnsigned(text[1..], 0x100)
      case Some(number) => if number <= 31 then Some(number) else None
      case None => None
  }

  function ParseNumbered(text: string): Option<PhysicalRegister> {
    if NumberAfter(text, 'x').Some? then Some(X(NumberAfter(text, 'x').value))
    else if NumberAfter(text, 'w').Some? then Some(W(NumberAfter(text, 'w').value))
    else if NumberAfter(text, 'd').Some? then Some(D(NumberAfter(text, 'd').value))
    else if NumberAfter(text, 's').Some? then Some(S(NumberAfter(text, 's').value))
    else if NumberAfter(text, 'v').Some? then Some(Q(NumberAfter(text, 'v').value))
    else if NumberAfter(text, 'q').Some? then Some(Q(NumberAfter(text, 'q').value))
    else None
  }

  function Parse(text: string): Option<Register> {
    if StartsWith(text, "vr") then VirtualOf(text[2..], Gpr64)
    else if StartsWith(text, "vq") then VirtualOf(text[2..], Simd128)
    else if StartsWith(text, "vd") then VirtualOf(text[2..], Fpr64)
    else if StartsWith(text, "vs") then VirtualOf(text[2..], Fpr32)
    else if text == "sp" then Some(Physical(Sp))
    else if text == "nzcv" then Some(Physical(Flags))
    else
      match ParseNumbered(text)
      case Some(reg) => Some(Physical(reg))
      case None => None
  }

  /** The registers with a spelling of their own: virtual ones of the four spelled classes, and
      physical ones that exist. */
  predicate Printable(r: Register) {
    match r
    case Virtual(_, kind) => kind != Gpr32 && kind != Nzcv
    case Physical(X(n)) => n <= 31
    case Physical(W(n)) => n <= 31
    case Physical(D(n)) => n <= 31
    case Physical(S(n)) => n <= 31
    case Physical(Q(n)) => n <= 31
    case Physical(_) => true
  }

  function KindOf(letter: char): RegisterClass {
    match letter
    case 'q' => Simd128
    case 'd' => Fpr64
    case 's' => Fpr32
    case _ => Gpr64
  }

  lemma VirtualParses(id: U32, letter: char)
    requires letter == 'r' || letter == 'q' || letter == 'd' || letter == 's'
    ensures Parse(['v', letter] + Decimal(id)) == Some(Virtual(id, KindOf(letter)))
  {
    var text := ['v', letter] + Decimal(id);
    DecimalParses(id, 0x1_0000_0000);
    assert text[..2] == ['v', letter] && text[2..] == Decimal(id) && text[..2][1] == letter;
  }

  lemma SpellingOfVirtual(id: U32, kind: RegisterClass)
    ensures
      var letter := if kind == Fpr64 then 'd' else if kind == Fpr32 then 's' else if kind == Simd128 then 'q' else 'r';
      Print(Virtual(id, kind)) == ['v', letter] + Decimal(id)
  {
  }

  lemma NumberParses(n: U8, letter: char)
    ensures
      var text := [letter] + Decimal(n);
      && text[0] == letter && |text| >= 2 && IsDigit(text[1])
      && NumberAfter(text, letter) == if n <= 31 then Some(n) else None
  {
    DecimalParses(n, 0x100);
    var text := [letter] + Decimal(n);
    assert text[1..] == Decimal(n) && text[1] == Decimal(n)[0];
  }

  /** A letter and a digit make none of the other spellings. */
  lemma NumberedGoesLast(text: string)
    requires |text| >= 2 && IsDigit(text[1])
    ensures Parse(text) == match ParseNumbered(text) case Some(reg) => Some(Physical(reg)) case None => None
  {
    assert text[..2][1] == text[1];
  }

  lemma PhysicalParses(p: PhysicalRegister)
    requires !p.Sp? && !p.Flags?
    ensures Parse(Print(Physical(p))) == if p.number <= 31 then Some(Physical(p)) else None
  {
    var text := Print(Physical(p));
    NumberParses(p.number, text[0]);
    NumberedGoesLast(text);
  }

  /** A printed register parses back exactly when it is printable; of the others, the virtual ones
      come back as 64-bit general registers and the physical ones not at all. */
  lemma PrintedParses(r: Register)
    ensures Parse(Print(r)) ==
      if Printable(r) then Some(r) else if r.Virtual? then Some(Virtual(r.id, Gpr64)) else None
  {
    match r {
      case Virtual(id, kind) =>
        SpellingOfVirtual(id, kind);
        VirtualParses(id, if kind == Fpr64 then 'd' else if kind == Fpr32 then 's' else if kind == Simd128 then 'q' else 'r');
      case Physical(Sp) =>
        assert "sp"[..2][0] == 's';
      case Physical(Flags) =>
        assert "nzcv"[..2][0] == 'n';
      case Physical(p) =>
        PhysicalParses(p);
    }
  }

  lemma NumberedVector(text: string, n: U8)
    requires text == ['v'] + Decimal(n)
    ensures ParseNumbered(text) == if n <= 31 then Some(Q(n)) else None
  {
    NumberParses(n, 'v');
  }

  /** A full vector register may be spelled with either of its two letters. */
  lemma VectorSpellingsAgree(n: U8)
    ensures Parse("v" + Decimal(n)) == Parse("q" + Decimal(n))
  {
    NumberedVector("v" + Decimal(n), n);
    assert ("v" + Decimal(n))[1] == Decimal(n)[0];
    NumberedGoesLast("v" + Decimal(n));
    PhysicalParses(Q(n));
    assert Print(Physical(Q(n))) == "q" + Decimal(n);
  }

  /** Every register that parsing gives is printable. */
  lemma ParsedIsPrintable(text: string)
    ensures Parse(text).Some? ==> Printable(Parse(text).value)
  {
  }

  /** However a register was spelled, printing it gives a spelling of the same register. */
  lemma ParsedPrintsBack(text: string)
    requires Parse(text).Some?
    ensures Parse(Print(Parse(text).value)) == Parse(text)
  {
    ParsedIsPrintable(text);
    PrintedParses(Parse(text).value);
  }

  /** Spellings are words. */
  lemma PrintIsWord(r: Register)
    ensures Print(r) != "" && All(Print(r), IsAlphanumeric)
  {
    match r {
      case Virtual(id, kind) => assert All(Decimal(id), IsDigit);
      case Physical(Sp) =>
      case Physical(Flags) =>
      case Physical(p) => assert All(Decimal(p.number), IsDigit);
    }
  }
}
