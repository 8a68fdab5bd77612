/** The bytecode of a pattern: what the compiler leaves in its buffer once every insertion, patch and
    register number is in place. */
module Codegen {
  import opened Options
  import opened RegexSyntax
  import opened Bytecode

  const UINT32_MAX: nat := 0xffff_ffff

  /** A boundary array in the form the set operations leave: even length, strictly increasing. */
  ghost predicate Canonical(points: seq<nat>) {
    && |points| % 2 == 0
    && (forall i, j :: 0 <= i < j < |points| ==> points[i] < points[j])
    && forall i :: 0 <= i < |points| ==> points[i] <= UINT32_MAX
  }

  // ----- classes -----

  /** The largest boundary that must be representable; the final UINT32_MAX does not count. */
  function TopBoundary(points: seq<nat>): nat
    requires |points| >= 2
  {
    if points[|points| - 1] == UINT32_MAX then points[|points| - 2] else points[|points| - 1]
  }

  /** Inclusive bounds; in 16-bit form 0xffff stands for infinity. */
  function ClassBounds(points: seq<nat>, wide: bool): (bounds: seq<nat>)
    ensures |bounds| == |points|
  {
    seq(|points|, i requires 0 <= i < |points| =>
      if i % 2 == 0 then points[i]
      else if !wide && points[i] == UINT32_MAX then 0xffff
      else if points[i] == 0 then UINT32_MAX else points[i] - 1)
  }

  function ClassCode(points: seq<nat>, icase: bool): Instr
  {
    if |points| < 2 then Char32(UINT32_MAX, false)
    else if TopBoundary(points) <= 0xffff then Range16(icase, ClassBounds(points, false))
    else Range32(icase, ClassBounds(points, true))
  }

  function CharacterCode(n: Regex): Instr
    requires IsCharacter(n)
  {
    match n
    case Char(c, icase) => if c <= 0xffff then Char16(c, icase) else Char32(c, icase)
    case Dot(dotAll) => if dotAll then AnyChar else DotChar
    case Space(negated) => SpaceChar(negated)
    case Class(points, icase) => ClassCode(points, icase)
  }

  // ----- what the compiler finds out about an atom -----

  /** The result of scanning an atom's code up to the first opcode whose outcome cannot be predicted:
      whether a character is always consumed, whether such an opcode was met, and whether a back
      reference was. */
  datatype Scan = Scan(consumes: bool, stops: bool, references: bool)

  const NOTHING := Scan(false, false, false)
  const UNPREDICTABLE := Scan(false, true, false)

  function AndThen(a: Scan, b: Scan): Scan {
    if a.stops then a else Scan(a.consumes || b.consumes, b.stops, a.references || b.references)
  }

  function ScanOf(n: Regex, backward: bool): Scan {
    match n
    case Empty => NOTHING
    case Char(_, _) => Scan(true, false, false)
    case Dot(_) => Scan(true, false, false)
    case Space(_) => Scan(true, false, false)
    case Class(_, _) => Scan(true, false, false)
    case LineStart(_) => NOTHING
    case LineEnd(_) => NOTHING
    case WordBoundary(_, _) => NOTHING
    case BackReference(_, _) => Scan(false, false, true)
    case Group(body) => ScanOf(body, backward)
    case Look(_, _, _) => UNPREDICTABLE
    case Cat(l, r) =>
      if backward then AndThen(ScanOf(r, backward), ScanOf(l, backward))
      else AndThen(ScanOf(l, backward), ScanOf(r, backward))
    case Alt(_, _) => UNPREDICTABLE
    case Quant(a, min, max, _) =>
      if min != 0 then AndThen(ScanOf(a, backward), UNPREDICTABLE)
      else if max == 0 then NOTHING
      else UNPREDICTABLE
  }

  /** Whether the compiler adds the zero-advance check around atom `a`. */
  predicate Checked(a: Regex, backward: bool) {
    !ScanOf(a, backward).consumes
  }

  predicate NeedsCaptureInit(a: Regex, backward: bool) {
    ScanOf(a, backward).stops || ScanOf(a, backward).references
  }

  /** Whether the captures of atom `a` are reset at every iteration. */
  predicate ResetsInside(a: Regex, backward: bool) {
    NeedsCaptureInit(a, backward) && Groups(a) != 0
  }

  /** Whether the captures of atom `a` are reset once, before an optional quantifier. */
  predicate ResetsBefore(a: Regex, backward: bool) {
    !NeedsCaptureInit(a, backward) && Groups(a) != 0
  }

  // ----- code -----

  /** What the parser guarantees: code points, canonical classes, existing groups and ordered counts. */
  ghost predicate WellFormed(n: Regex) {
    match n
    case Char(c, _) => c < 0x11_0000
    case Class(points, _) => Canonical(points)
    case BackReference(groups, _) => |groups| < 256 && forall k :: 0 <= k < |groups| ==> groups[k] < 256
    case Group(body) => WellFormed(body)
    case Look(_, _, body) => WellFormed(body)
    case Cat(l, r) => WellFormed(l) && WellFormed(r)
    case Alt(l, r) => WellFormed(l) && WellFormed(r)
    case Quant(a, min, max, _) => min <= max <= INFINITE && WellFormed(a)
    case _ => true
  }

  type Pattern = n: Regex | WellFormed(n) ghost witness Empty

  /** While code is emitted every register operand is 0; a later pass numbers them. */
  datatype Registers = Unallocated | From(first: nat) {
    function At(k: nat): nat {
      if Unallocated? then 0 else first + k
    }

    function Skip(k: nat): Registers {
      if Unallocated? then Unallocated else From(first + k)
    }
  }

  /** The code of `n` with groups numbered from `g` on. */
  function Code(n: Regex, backward: bool, rs: Registers, g: nat): seq<Instr>
    decreases n, 0
  {
    match n
    case Empty => []
    case Char(_, _) => CharacterSteps(n, backward)
    case Dot(_) => CharacterSteps(n, backward)
    case Space(_) => CharacterSteps(n, backward)
    case Class(_, _) => CharacterSteps(n, backward)
    case LineStart(_) => [TestCode(n, backward)]
    case LineEnd(_) => [TestCode(n, backward)]
    case WordBoundary(_, _) => [TestCode(n, backward)]
    case BackReference(_, _) => [TestCode(n, backward)]
    case Group(body) =>
      [SaveOpen(backward, g)] + Code(body, backward, rs, g + 1) + [SaveClose(backward, g)]
    case Look(negated, behind, body) =>
      var c := Code(body, behind, rs, g);
      [LookOp(negated, CodeSize(c) + 1)] + c + [LookAccept(negated)]
    case Cat(l, r) =>
      if backward then Code(r, backward, rs, g + Groups(l)) + Code(l, backward, rs, g)
      else Code(l, backward, rs, g) + Code(r, backward, rs, g + Groups(l))
    case Alt(l, r) =>
      Branches(Code(l, backward, rs, g), Code(r, backward, rs, g + Groups(l)))
    case Quant(a, min, max, greedy) =>
      if min == 0 then
        var reset := ResetCode(ResetsBefore(a, backward), a, g);
        if max == 0 then reset
        else if max == 1 || max == INFINITE then
          reset + OptionalCode(a, backward, rs, g, max == INFINITE, greedy)
        else
          reset + OptionalCountedCode(a, backward, rs, g, max, greedy)
      else if min == 1 && max == INFINITE && !Checked(a, backward) then PlusCode(a, backward, rs, g, greedy)
      else if min >= max then ExactCode(a, backward, rs, g, max)
      else CountedCode(a, backward, rs, g, Checked(a, backward), max, max - min, greedy)
  }

  function Branches(a: seq<Instr>, b: seq<Instr>): seq<Instr> {
    [Split(true, CodeSize(a) + 5)] + a + [Goto(CodeSize(b))] + b
  }

  function CharacterSteps(n: Regex, backward: bool): seq<Instr>
    requires IsCharacter(n)
  {
    if backward then [PrevChar, CharacterCode(n), PrevChar] else [CharacterCode(n)]
  }

  function TestCode(n: Regex, backward: bool): Instr
    requires IsAssertion(n) || n.BackReference?
  {
    match n
    case LineStart(multiline) => AssertStart(multiline)
    case LineEnd(multiline) => AssertEnd(multiline)
    case WordBoundary(negated, icase) => AssertWord(negated, icase)
    case BackReference(groups, icase) => BackRef(backward, icase, groups)
  }

  function SaveOpen(backward: bool, g: nat): Instr {
    if backward then SaveEnd(g) else SaveStart(g)
  }

  function SaveClose(backward: bool, g: nat): Instr {
    if backward then SaveStart(g) else SaveEnd(g)
  }

  function ResetCode(needed: bool, a: Regex, g: nat): seq<Instr> {
    if needed && Groups(a) != 0 then [SaveReset(g, g + Groups(a) - 1)] else []
  }

  function SetPosCode(checked: bool, r: nat): seq<Instr> {
    if checked then [SetCharPos(r)] else []
  }

  function CheckCode(checked: bool, r: nat): seq<Instr> {
    if checked then [CheckAdvance(r)] else []
  }

  function Bytes2(b: bool): nat {
    if b then 2 else 0
  }

  function Count(b: bool): nat {
    if b then 1 else 0
  }

  /** The atom with the capture reset that runs at each iteration. */
  function LoopBody(a: Regex, backward: bool, rs: Registers, g: nat): seq<Instr>
    decreases a, 1
  {
    ResetCode(ResetsInside(a, backward), a, g) + Code(a, backward, rs, g)
  }

  /** `a?`, and `a*` when `repeat` holds. */
  function OptionalCode(a: Regex, backward: bool, rs: Registers, g: nat, repeat: bool, greedy: bool): seq<Instr>
    decreases a, 2
  {
    var checked := Checked(a, backward);
    OptionalShape(LoopBody(a, backward, rs.Skip(Count(checked)), g), checked, rs.At(0), repeat, greedy)
  }

  function OptionalShape(c: seq<Instr>, checked: bool, r: nat, repeat: bool, greedy: bool): seq<Instr> {
    var size := CodeSize(c) + 2 * Bytes2(checked);
    [Split(greedy, size + if repeat then 5 else 0)] + SetPosCode(checked, r)
    + c
    + CheckCode(checked, r) + if repeat then [Goto(-(size + 10))] else []
  }

  /** `a{0,max}`. */
  function OptionalCountedCode(a: Regex, backward: bool, rs: Registers, g: nat, max: nat, greedy: bool): seq<Instr>
    decreases a, 3
  {
    var checked := Checked(a, backward);
    var loop := CountedCode(a, backward, rs, g, checked, max, max, greedy);
    [Split(greedy, CodeSize(loop))] + loop
  }

  /** `a+` when the atom always advances. */
  function PlusCode(a: Regex, backward: bool, rs: Registers, g: nat, greedy: bool): seq<Instr>
    decreases a, 2
  {
    var c := LoopBody(a, backward, rs, g);
    c + [Split(!greedy, -(CodeSize(c) + 5))]
  }

  /** `a{max}`. */
  function ExactCode(a: Regex, backward: bool, rs: Registers, g: nat, max: nat): seq<Instr>
    decreases a, 2
  {
    var c := LoopBody(a, backward, rs.Skip(1), g);
    [SetI32(rs.At(0), max)] + c + [Loop(rs.At(0), -(CodeSize(c) + 6))]
  }

  /** A loop counting down from `max`; iterations are optional once the count is at most `limit`. */
  function CountedCode(a: Regex, backward: bool, rs: Registers, g: nat, checked: bool, max: nat, limit: nat,
                       greedy: bool): seq<Instr>
    decreases a, 2
  {
    CountedShape(LoopBody(a, backward, rs.Skip(1 + Count(checked)), g), checked, rs.At(0), rs.At(1), max, limit, greedy)
  }

  function CountedShape(c: seq<Instr>, checked: bool, r: nat, r': nat, max: nat, limit: nat, greedy: bool): seq<Instr> {
    [SetI32(r, max)] + SetPosCode(checked, r')
    + c
    + [LoopSplit(checked, !greedy, r, limit, -(CodeSize(c) + 10 + Bytes2(checked)))]
  }

  // ----- one constructor at a time -----

  lemma GroupCode(n: Regex, backward: bool, rs: Registers, g: nat)
    requires n.Group?
    ensures Code(n, backward, rs, g) == [SaveOpen(backward, g)] + Code(n.body, backward, rs, g + 1) + [SaveClose(backward, g)]
  {
    hide Groups, CodeSize, ScanOf, LoopBody;
  }

  lemma CatCode(n: Regex, backward: bool, rs: Registers, g: nat)
    requires n.Cat?
    ensures var a, b := Code(n.left, backward, rs, g), Code(n.right, backward, rs, g + Groups(n.left));
      Code(n, backward, rs, g) == if backward then b + a else a + b
  {
    hide Groups, CodeSize, ScanOf, LoopBody;
  }

  lemma LookCode(n: Regex, backward: bool, rs: Registers, g: nat)
    requires n.Look?
    ensures var c := Code(n.body, n.behind, rs, g);
      Code(n, backward, rs, g) == [LookOp(n.negated, CodeSize(c) + 1)] + c + [LookAccept(n.negated)]
      == [LookOp(n.negated, CodeSize(c) + 1)] + (c + [LookAccept(n.negated)])
  {
    hide Groups, CodeSize, ScanOf, LoopBody;
  }

  lemma AltCode(n: Regex, backward: bool, rs: Registers, g: nat)
    requires n.Alt?
    ensures Code(n, backward, rs, g) == Branches(Code(n.left, backward, rs, g), Code(n.right, backward, rs, g + Groups(n.left)))
  {
    hide Groups, CodeSize, ScanOf, LoopBody;
  }

  /** The number of loop registers the code of `n` uses. */
  function RegistersOf(n: Regex, backward: bool): nat {
    match n
    case Group(body) => RegistersOf(body, backward)
    case Look(_, behind, body) => RegistersOf(body, behind)
    case Cat(l, r) => Max(RegistersOf(l, backward), RegistersOf(r, backward))
    case Alt(l, r) => Max(RegistersOf(l, backward), RegistersOf(r, backward))
    case Quant(a, min, max, _) =>
      if min == 0 && max == 0 then 0
      else if min == 0 && (max == 1 || max == INFINITE) then Count(Checked(a, backward)) + RegistersOf(a, backward)
      else if min == 1 && max == INFINITE && !Checked(a, backward) then RegistersOf(a, backward)
      else if min != 0 && min >= max then 1 + RegistersOf(a, backward)
      else 1 + Count(Checked(a, backward)) + RegistersOf(a, backward)
    case _ => 0
  }

  function Max(a: nat, b: nat): nat {
    if a < b then b else a
  }

  // ----- whole programs -----

  /** Tries every start position in turn: `split_goto_first; any; goto`. */
  const SEARCH_PREFIX: seq<Instr> := [Split(false, 6), AnyChar, Goto(-11)]

  function ProgramCode(n: Regex, sticky: bool, rs: Registers): seq<Instr> {
    (if sticky then [] else SEARCH_PREFIX) + [SaveStart(0)] + Code(n, false, rs, 1) + [SaveEnd(0), Accept]
  }
}
