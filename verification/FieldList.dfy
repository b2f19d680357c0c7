/**
 The field list of a Field() declaration (ACPI specification, section 20.2.5.2): how
 exec.c walks its bytes, that it lays the fields out side by side, and that the walk
 inverts the encoding.
 */
module FieldList {
  import opened AmlTypes
  import opened AmlMachine
  import opened AmlSyntax
  import opened AmlLayout
  import opened FieldBits
  import opened Fields
  import opened FieldLaws

  datatype NamedField = NamedField(name: seq<byte>, field: Field)

  datatype ListResult = Listed(fields: seq<NamedField>, pc: nat) | Failed(f: Fault)

  function After(x: NamedField, r: ListResult): ListResult {
    match r
    case Listed(fields, pc) => Listed([x] + fields, pc)
    case Failed(_) => r
  }

  /** The rest of the list from pc on, with the access type and the bit offset reached so far. */
  function Elements(code: seq<byte>, pc: nat, end: nat, limit: nat, access: byte, offset: nat): ListResult
    requires end <= |code|
    decreases if pc < end then end - pc else 0
  {
    if pc >= end then Listed([], pc)
    else if code[pc] == 0 then
      (match ParseVarint(code, pc + 1, limit)
       case None => Failed(ErrorCode)
       case Some((bits, next)) => Elements(code, next, end, limit, access, offset + bits))
    else if code[pc] == 1 then
      if pc + 1 >= |code| then Failed(OutOfCode) else Elements(code, pc + 3, end, limit, code[pc + 1], offset)
    else if code[pc] == 2 then Failed(Panic)
    else if pc + 1 > limit then Failed(ErrorCode)
    else if !IsLeadName(code[pc]) then Failed(Unsupported)
    else if pc + 4 > |code| then Failed(OutOfCode)
    else
      match ParseVarint(code, pc + 4, limit)
      case None => Failed(ErrorCode)
      case Some((bits, next)) =>
        After(NamedField(code[pc..pc + 4], Field(offset, bits, access)), Elements(code, next, end, limit, access, offset + bits))
  }

  function Prepend(done: seq<NamedField>, r: ListResult): ListResult {
    match r
    case Listed(fields, pc) => Listed(done + fields, pc)
    case Failed(_) => r
  }

  /** The loop over a FieldList in lai_exec_parse(). */
  method ParseFieldList(code: seq<byte>, start: nat, end: nat, limit: nat, accessType: byte) returns (r: ListResult)
    requires end <= |code|
    ensures r == Elements(code, start, end, limit, accessType, 0)
  {
    var pc, access, currOff := start, accessType, 0;
    var fields: seq<NamedField> := [];
    while pc < end
      invariant Elements(code, start, end, limit, accessType, 0) == Prepend(fields, Elements(code, pc, end, limit, access, currOff))
      decreases if pc < end then end - pc else 0
    {
      if code[pc] == 0 {
        match ParseVarint(code, pc + 1, limit)
        case None => return Failed(ErrorCode);
        case Some((bits, next)) =>
          currOff := currOff + bits;
          pc := next;
      } else if code[pc] == 1 {
        if pc + 1 >= |code| {
          return Failed(OutOfCode);
        }
        access := code[pc + 1];
        pc := pc + 3;
      } else if code[pc] == 2 {
        return Failed(Panic);
      } else if pc + 1 > limit {
        return Failed(ErrorCode);
      } else if !IsLeadName(code[pc]) {
        return Failed(Unsupported);
      } else if pc + 4 > |code| {
        return Failed(OutOfCode);
      } else {
        match ParseVarint(code, pc + 4, limit)
        case None => return Failed(ErrorCode);
        case Some((bits, next)) =>
          var x := NamedField(code[pc..pc + 4], Field(currOff, bits, access));
          Joining(fields, x, Elements(code, next, end, limit, access, currOff + bits));
          fields := fields + [x];
          currOff := currOff + bits;
          pc := next;
      }
    }
    r := Listed(fields, pc);
  }

  lemma Joining(done: seq<NamedField>, x: NamedField, r: ListResult)
    ensures Prepend(done, After(x, r)) == Prepend(done + [x], r)
  {
    if r.Listed? {
      assert done + ([x] + r.fields) == (done + [x]) + r.fields;
    }
  }

  /** Fields one behind the other: each ends before the next begins. */
  ghost predicate SideBySide(fields: seq<NamedField>, offset: nat) {
    && (forall i :: 0 <= i < |fields| ==> offset <= fields[i].field.offset)
    && forall i, j :: 0 <= i < j < |fields| ==> fields[i].field.offset + fields[i].field.size <= fields[j].field.offset
  }

  lemma {:induction false} FieldsSideBySide(code: seq<byte>, pc: nat, end: nat, limit: nat, access: byte, offset: nat)
    requires end <= |code|
    ensures var r := Elements(code, pc, end, limit, access, offset); r.Listed? ==> SideBySide(r.fields, offset)
    decreases if pc < end then end - pc else 0
  {
    if pc < end {
      if code[pc] == 0 {
        match ParseVarint(code, pc + 1, limit)
        case None =>
        case Some((bits, next)) => FieldsSideBySide(code, next, end, limit, access, offset + bits);
      } else if code[pc] == 1 {
        if pc + 1 < |code| {
          FieldsSideBySide(code, pc + 3, end, limit, code[pc + 1], offset);
        }
      } else if code[pc] != 2 && pc + 1 <= limit && IsLeadName(code[pc]) && pc + 4 <= |code| {
        match ParseVarint(code, pc + 4, limit)
        case None =>
        case Some((bits, next)) =>
          FieldsSideBySide(code, next, end, limit, access, offset + bits);
          BesideFirst(Elements(code, next, end, limit, access, offset + bits), NamedField(code[pc..pc + 4], Field(offset, bits, access)));
      }
    }
  }

  lemma BesideFirst(r: ListResult, x: NamedField)
    requires r.Listed? ==> SideBySide(r.fields, x.field.offset + x.field.size)
    ensures After(x, r).Listed? ==> SideBySide(After(x, r).fields, x.field.offset)
  {
  }

  /** Writing one field of a list under Preserve changes no other field of the list but for what is wiped, whatever bytes were parsed. */
  lemma ListedFieldsIndependent(code: seq<byte>, pc: nat, end: nat, limit: nat, access: byte, i: nat, j: nat,
                                w: nat, source: Contents, was: seq<byte>, cur: seq<byte>, k: nat)
    requires end <= |code| && Elements(code, pc, end, limit, access, 0).Listed? && IsWidth(w)
    requires var fields := Elements(code, pc, end, limit, access, 0).fields;
             && i < |fields| && j < |fields| && i != j && k < fields[j].field.size
             && FieldStored(fields[i].field, w, Preserve, source, was, cur)
    ensures var fields := Elements(code, pc, end, limit, access, 0).fields;
            var f, g := fields[i].field, fields[j].field;
            RegionBit(cur, g, k) == (RegionBit(was, g, k) && !Wiped(f, w, g.offset + k))
  {
    var fields := Elements(code, pc, end, limit, access, 0).fields;
    FieldsSideBySide(code, pc, end, limit, access, 0);
    FieldsIndependent(fields[i].field, fields[j].field, w, source, was, cur, k);
  }

  /** So the two are independent exactly if the second has no bit in the upper half of a 64-bit unit of the write. */
  lemma ListedIndependentIff(code: seq<byte>, pc: nat, end: nat, limit: nat, access: byte, i: nat, j: nat, w: nat, length: nat)
    requires end <= |code| && Elements(code, pc, end, limit, access, 0).Listed? && IsWidth(w)
    requires var fields := Elements(code, pc, end, limit, access, 0).fields;
             i < |fields| && j < |fields| && i != j && fields[j].field.offset + fields[j].field.size <= 8 * length
    ensures var fields := Elements(code, pc, end, limit, access, 0).fields;
            AlwaysLeft(fields[i].field, fields[j].field, w, length) <==> Spared(fields[i].field, fields[j].field, w)
  {
    var fields := Elements(code, pc, end, limit, access, 0).fields;
    FieldsSideBySide(code, pc, end, limit, access, 0);
    IndependentIff(fields[i].field, fields[j].field, w, length);
  }

  // -------------------------------------------------------------------------- round trip

  datatype Element =
    | Reserved(width: nat, bits: nat)
    | Access(accessType: byte, attrib: byte)
    | Named(name: seq<byte>, width: nat, bits: nat)

  datatype ElementList = Nothing | More(first: Element, rest: ElementList)

  predicate ElementOk(x: Element) {
    match x
    case Reserved(width, bits) => PkgFits(width, bits)
    case Access(_, _) => true
    case Named(name, width, bits) => |name| == 4 && IsLeadName(name[0]) && PkgFits(width, bits)
  }

  predicate ListOk(xs: ElementList) {
    xs.More? ==> ElementOk(xs.first) && ListOk(xs.rest)
  }

  function EncodeElement(x: Element): seq<byte> {
    match x
    case Reserved(width, bits) => [0] + PkgLength(width, bits)
    case Access(accessType, attrib) => [1] + [accessType, attrib]
    case Named(name, width, bits) => name + PkgLength(width, bits)
  }

  function EncodeList(xs: ElementList): seq<byte> {
    if xs.Nothing? then [] else EncodeElement(xs.first) + EncodeList(xs.rest)
  }

  /** Where the declared fields lie: sizes and gaps add up, access types last until the next one. */
  function Layout(xs: ElementList, access: byte, offset: nat): seq<NamedField> {
    match xs
    case Nothing => []
    case More(Reserved(_, bits), rest) => Layout(rest, access, offset + bits)
    case More(Access(accessType, _), rest) => Layout(rest, accessType, offset)
    case More(Named(name, _, bits), rest) => [NamedField(name, Field(offset, bits, access))] + Layout(rest, access, offset + bits)
  }

  function NextAccess(x: Element, access: byte): byte {
    if x.Access? then x.accessType else access
  }

  function NextOffset(x: Element, offset: nat): nat {
    if x.Access? then offset else offset + x.bits
  }

  /** The list from an element on, with what lies behind it at next. */
  function Behind(code: seq<byte>, next: nat, x: Element, end: nat, access: byte, offset: nat): ListResult
    requires end <= |code|
  {
    var r := Elements(code, next, end, end, NextAccess(x, access), NextOffset(x, offset));
    if x.Named? then After(NamedField(x.name, Field(offset, x.bits, access)), r) else r
  }

  lemma ReservedWalks(code: seq<byte>, pc: nat, x: Element, end: nat, access: byte, offset: nat)
    requires x.Reserved? && ElementOk(x) && At(code, pc, EncodeElement(x)) && pc + |EncodeElement(x)| <= end == |code|
    ensures Elements(code, pc, end, end, access, offset) == Elements(code, pc + |EncodeElement(x)|, end, end, access, offset + x.bits)
  {
    AtByte(code, pc, 0, PkgLength(x.width, x.bits));
    VarintDecodes(code, pc + 1, x.width, x.bits);
  }

  lemma AccessWalks(code: seq<byte>, pc: nat, x: Element, end: nat, access: byte, offset: nat)
    requires x.Access? && At(code, pc, EncodeElement(x)) && pc + |EncodeElement(x)| <= end == |code|
    ensures Elements(code, pc, end, end, access, offset) == Elements(code, pc + |EncodeElement(x)|, end, end, x.accessType, offset)
  {
    AtByte(code, pc, 1, [x.accessType, x.attrib]);
    AtIndex(code, pc + 1, [x.accessType, x.attrib], 0);
  }

  lemma NamedWalks(code: seq<byte>, pc: nat, x: Element, end: nat, access: byte, offset: nat)
    requires x.Named? && ElementOk(x) && At(code, pc, EncodeElement(x)) && pc + |EncodeElement(x)| <= end == |code|
    ensures Elements(code, pc, end, end, access, offset) ==
            After(NamedField(x.name, Field(offset, x.bits, access)), Elements(code, pc + |EncodeElement(x)|, end, end, access, offset + x.bits))
  {
    AtSplit(code, pc, x.name, PkgLength(x.width, x.bits));
    AtSlice(code, pc, x.name);
    AtIndex(code, pc, x.name, 0);
    VarintDecodes(code, pc + 4, x.width, x.bits);
  }

  /** One element of the encoding is walked over as declared. */
  lemma ElementWalks(code: seq<byte>, pc: nat, x: Element, end: nat, access: byte, offset: nat)
    requires ElementOk(x) && At(code, pc, EncodeElement(x)) && pc + |EncodeElement(x)| <= end == |code|
    ensures Elements(code, pc, end, end, access, offset) == Behind(code, pc + |EncodeElement(x)|, x, end, access, offset)
  {
    match x
    case Reserved(_, _) => ReservedWalks(code, pc, x, end, access, offset);
    case Access(_, _) => AccessWalks(code, pc, x, end, access, offset);
    case Named(_, _, _) => NamedWalks(code, pc, x, end, access, offset);
  }

  lemma HeadWalks(code: seq<byte>, pc: nat, xs: ElementList, access: byte, offset: nat) returns (next: nat)
    requires xs.More? && ListOk(xs) && At(code, pc, EncodeList(xs)) && pc + |EncodeList(xs)| == |code|
    ensures At(code, next, EncodeList(xs.rest)) && next + |EncodeList(xs.rest)| == |code|
    ensures Elements(code, pc, |code|, |code|, access, offset) == Behind(code, next, xs.first, |code|, access, offset)
  {
    AtSplit(code, pc, EncodeElement(xs.first), EncodeList(xs.rest));
    next := pc + |EncodeElement(xs.first)|;
    ElementWalks(code, pc, xs.first, |code|, access, offset);
  }

  /** Parsing the encoding of a field list gives its layout. */
  lemma {:induction false} ListRoundTrip(code: seq<byte>, pc: nat, xs: ElementList, access: byte, offset: nat)
    requires ListOk(xs) && At(code, pc, EncodeList(xs)) && pc + |EncodeList(xs)| == |code|
    ensures Elements(code, pc, |code|, |code|, access, offset) == Listed(Layout(xs, access, offset), |code|)
    decreases xs
  {
    match xs
    case Nothing =>
    case More(x, rest) =>
      var next := HeadWalks(code, pc, xs, access, offset);
      ListRoundTrip(code, next, rest, NextAccess(x, access), NextOffset(x, offset));
  }

  // ------------------------------------------------------------------- lists that fail

  function LastAccess(xs: ElementList, access: byte): byte {
    if xs.Nothing? then access else LastAccess(xs.rest, NextAccess(xs.first, access))
  }

  function EndOffset(xs: ElementList, offset: nat): nat {
    if xs.Nothing? then offset else EndOffset(xs.rest, NextOffset(xs.first, offset))
  }

  /** The elements at the front of a list are walked over as declared, whatever bytes follow them. */
  lemma {:induction false} FrontWalks(code: seq<byte>, pc: nat, xs: ElementList, access: byte, offset: nat, q: nat)
    requires ListOk(xs) && At(code, pc, EncodeList(xs)) && q == pc + |EncodeList(xs)| <= |code|
    ensures Elements(code, pc, |code|, |code|, access, offset) ==
            Prepend(Layout(xs, access, offset), Elements(code, q, |code|, |code|, LastAccess(xs, access), EndOffset(xs, offset)))
    decreases xs
  {
    var rest := Elements(code, q, |code|, |code|, LastAccess(xs, access), EndOffset(xs, offset));
    if xs.Nothing? {
      NothingInFront(rest);
    } else {
      var x := xs.first;
      AtSplit(code, pc, EncodeElement(x), EncodeList(xs.rest));
      var next := pc + |EncodeElement(x)|;
      ElementWalks(code, pc, x, |code|, access, offset);
      FrontWalks(code, next, xs.rest, NextAccess(x, access), NextOffset(x, offset), q);
      if x.Named? {
        OneInFront(NamedField(x.name, Field(offset, x.bits, access)), Layout(xs.rest, NextAccess(x, access), NextOffset(x, offset)), rest);
      }
    }
  }

  lemma NothingInFront(r: ListResult)
    ensures Prepend([], r) == r
  {
    if r.Listed? {
      assert [] + r.fields == r.fields;
    }
  }

  lemma OneInFront(x: NamedField, done: seq<NamedField>, r: ListResult)
    ensures After(x, Prepend(done, r)) == Prepend([x] + done, r)
  {
    if r.Listed? {
      assert [x] + (done + r.fields) == ([x] + done) + r.fields;
    }
  }

  /**
   How a list fails behind any elements that are well formed: a connection is a panic; an
   access element or a name that is cut off runs out of code; a gap without a length is an error.
   */
  lemma ListFails(code: seq<byte>, pc: nat, xs: ElementList, access: byte, offset: nat, q: nat)
    requires ListOk(xs) && At(code, pc, EncodeList(xs)) && q == pc + |EncodeList(xs)| < |code|
    ensures code[q] == 2 ==> Elements(code, pc, |code|, |code|, access, offset) == Failed(Panic)
    ensures code[q] == 1 && q + 1 == |code| ==> Elements(code, pc, |code|, |code|, access, offset) == Failed(OutOfCode)
    ensures 0x41 <= code[q] <= 0x5A && q + 4 > |code| ==> Elements(code, pc, |code|, |code|, access, offset) == Failed(OutOfCode)
    ensures code[q] == 0 && q + 1 == |code| ==> Elements(code, pc, |code|, |code|, access, offset) == Failed(ErrorCode)
  {
    FrontWalks(code, pc, xs, access, offset, q);
  }
}
