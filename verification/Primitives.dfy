/** The primitive types of the model, as the two writers describe them: DWARF base types and CodeView built-in types
    of the same nature and size. */
module Primitives {
  import opened Bytes
  import opened Model
  import TypeDies
  import TypeEmitter
  import TypeRecords

  datatype Nature = Truth | SignedNumber | UnsignedNumber | FloatingNumber | Letter | Address | Other

  /** What a DWARF base type encoding says (section 7.8 of the DWARF v5 standard). */
  function NatureOfEncoding(encoding: nat): Nature {
    match encoding
    case 0x01 => Address
    case 0x02 => Truth
    case 0x04 => FloatingNumber
    case 0x05 => SignedNumber
    case 0x07 => UnsignedNumber
    case 0x08 => Letter
    case 0x10 => Letter
    case _ => Other
  }

  /** What a CodeView built-in type is. */
  function NatureOfSimple(s: TypeRecords.SimpleType): Nature {
    match s
    case NarrowChar => Letter
    case WideChar => Letter
    case VoidPointer64 => Address
    case NarrowCharPointer64 => Address
    case WideCharPointer64 => Address
    case SignedChar => SignedNumber
    case Int16Short => SignedNumber
    case SInt32 => SignedNumber
    case Int64Quad => SignedNumber
    case UnsignedChar => UnsignedNumber
    case UInt16Short => UnsignedNumber
    case UInt32 => UnsignedNumber
    case UInt64 => UnsignedNumber
    case Boolean8 => Truth
    case Boolean16 => Truth
    case Boolean32 => Truth
    case Boolean64 => Truth
    case Float32 => FloatingNumber
    case Float64 => FloatingNumber
    case NoType => Other
    case Void => Other
  }

  /** Every primitive is of the same nature and size in DWARF and in the PDB, but for the 80-bit float, which CodeView
      has no type for and which becomes ten bytes. */
  lemma WritersAgree(k: PrimitiveKind)
    ensures var d := TypeDies.DescribePrimitive(k); var ty := TypeEmitter.KindTy(d.size, Some(k));
            if k == Float80 then
              && d.size == 10 && NatureOfEncoding(d.encoding) == FloatingNumber
              && ty == TypeRecords.ArrayTy(TypeRecords.ScalarTy(TypeRecords.UnsignedChar), 10)
            else
              && ty.ScalarTy? && TypeEmitter.ByteWidth(ty.simple) == d.size
              && NatureOfSimple(ty.simple) == NatureOfEncoding(d.encoding) != Other
  {
    hide Ascii;
  }

  /** Booleans come in four widths in the PDB, and keep theirs; of any other width they are plain bytes. */
  lemma BooleanWidth(byteSize: u32)
    ensures var ty := TypeEmitter.KindTy(byteSize, Some(Bool));
            if byteSize in {1, 2, 4, 8} then
              ty.ScalarTy? && NatureOfSimple(ty.simple) == Truth && TypeEmitter.ByteWidth(ty.simple) == byteSize
            else ty == TypeEmitter.SizeTy(byteSize)
  {
  }

  /** What each kind is: the integers of each width and sign, and so on. */
  function KindIs(k: PrimitiveKind): (Nature, nat) {
    match k
    case Bool => (Truth, 1)
    case Char => (Letter, 1)
    case WChar => (Letter, 2)
    case Int8 => (SignedNumber, 1)
    case Int16 => (SignedNumber, 2)
    case Int32 => (SignedNumber, 4)
    case Int64 => (SignedNumber, 8)
    case UInt8 => (UnsignedNumber, 1)
    case UInt16 => (UnsignedNumber, 2)
    case UInt32 => (UnsignedNumber, 4)
    case UInt64 => (UnsignedNumber, 8)
    case Float32 => (FloatingNumber, 4)
    case Float64 => (FloatingNumber, 8)
    case Float80 => (FloatingNumber, 10)
    case PChar => (Address, 8)
    case PWChar => (Address, 8)
  }

  lemma DescribedAsIs(k: PrimitiveKind)
    ensures var d := TypeDies.DescribePrimitive(k); (NatureOfEncoding(d.encoding), d.size as nat) == KindIs(k)
  {
    hide Ascii;
  }

  // ----- The types of Delphi ---------------------------------------------------------------------------------

  /** An entry of the table that names are looked up in. */
  datatype Desc = Desc(name: string, kind: PrimitiveKind, byteSize: u16)

  const ENTRIES := 36

  /** Booleans and characters. */
  function Ordinals(i: nat): Desc
    requires i < 7
  {
    match i
    case 0 => Desc("Boolean", Bool, 1)
    case 1 => Desc("ByteBool", Bool, 1)
    case 2 => Desc("WordBool", Bool, 2)
    case 3 => Desc("LongBool", Bool, 4)
    case 4 => Desc("AnsiChar", Char, 1)
    case 5 => Desc("Char", WChar, 2)
    case _ => Desc("WideChar", WChar, 2)
  }

  function Integers(i: nat): Desc
    requires i < 13
  {
    match i
    case 0 => Desc("ShortInt", Int8, 1)
    case 1 => Desc("SmallInt", Int16, 2)
    case 2 => Desc("Integer", Int32, 4)
    case 3 => Desc("LongInt", Int32, 4)
    case 4 => Desc("Int64", Int64, 8)
    case 5 => Desc("NativeInt", Int64, 8)
    case 6 => Desc("Comp", Int64, 8)
    case 7 => Desc("Byte", UInt8, 1)
    case 8 => Desc("Word", UInt16, 2)
    case 9 => Desc("Cardinal", UInt32, 4)
    case 10 => Desc("LongWord", UInt32, 4)
    case 11 => Desc("UInt64", UInt64, 8)
    case _ => Desc("NativeUInt", UInt64, 8)
  }

  /** Reals, currency and the untyped pointer. */
  function Reals(i: nat): Desc
    requires i < 8
  {
    match i
    case 0 => Desc("Single", Float32, 4)
    case 1 => Desc("Real", Float64, 8)
    case 2 => Desc("Real48", Float64, 6)
    case 3 => Desc("Double", Float64, 8)
    case 4 => Desc("Extended", Float64, 8)
    case 5 => Desc("Extended80", Float80, 10)
    case 6 => Desc("Currency", Int64, 8)
    case _ => Desc("Pointer", UInt64, 8)
  }

  function Strings(i: nat): Desc
    requires i < 8
  {
    match i
    case 0 => Desc("UnicodeString", PWChar, 8)
    case 1 => Desc("WideString", PWChar, 8)
    case 2 => Desc("AnsiString", PChar, 8)
    case 3 => Desc("UTF8String", PChar, 8)
    case 4 => Desc("PChar", PWChar, 8)
    case 5 => Desc("PWideChar", PWChar, 8)
    case 6 => Desc("PAnsiChar", PChar, 8)
    case _ => Desc("string", PWChar, 8)
  }

  function Entry(i: nat): Desc
    requires i < ENTRIES
  {
    if i < 7 then Ordinals(i)
    else if i < 20 then Integers(i - 7)
    else if i < 28 then Reals(i - 20)
    else Strings(i - 28)
  }

  /** The first entry of the name from `i` on. */
  function LookupFrom(name: string, i: nat): (r: Option<nat>)
    requires i <= ENTRIES
    ensures r.Some? ==> i <= r.value < ENTRIES && Entry(r.value).name == name
    ensures r.None? ==> forall j | i <= j < ENTRIES :: Entry(j).name != name
    decreases ENTRIES - i
  {
    if i == ENTRIES then None else if Entry(i).name == name then Some(i) else LookupFrom(name, i + 1)
  }

  method LookupPrimitive(name: string) returns (r: Option<Desc>)
    ensures r == match LookupFrom(name, 0) case Some(i) => Some(Entry(i)) case None => None
  {
    hide Entry;
    for i := 0 to ENTRIES
      invariant LookupFrom(name, 0) == LookupFrom(name, i)
    {
      if Entry(i).name == name {
        return Some(Entry(i));
      }
    }
    r := None;
  }

  /** Length, first two characters and last character, which tell the names apart. */
  function Marks(name: string): nat
    requires |name| >= 2
  {
    0x100_0000 * |name| + 0x1_0000 * name[0] as nat + 0x100 * name[1] as nat + name[|name| - 1] as nat
  }

  function MarksAt(i: nat): nat
    requires i < ENTRIES
  {
    match i
    case 0 => 0x7426F6E
    case 1 => 0x842796C
    case 2 => 0x8576F6C
    case 3 => 0x84C6F6C
    case 4 => 0x8416E72
    case 5 => 0x4436872
    case 6 => 0x8576972
    case 7 => 0x8536874
    case 8 => 0x8536D74
    case 9 => 0x7496E72
    case 10 => 0x74C6F74
    case 11 => 0x5496E34
    case 12 => 0x94E6174
    case 13 => 0x4436F70
    case 14 => 0x4427965
    case 15 => 0x4576F64
    case 16 => 0x843616C
    case 17 => 0x84C6F64
    case 18 => 0x6554934
    case 19 => 0xA4E6174
    case 20 => 0x6536965
    case 21 => 0x452656C
    case 22 => 0x6526538
    case 23 => 0x6446F65
    case 24 => 0x8457864
    case 25 => 0xA457830
    case 26 => 0x8437579
    case 27 => 0x7506F72
    case 28 => 0xD556E67
    case 29 => 0xA576967
    case 30 => 0xA416E67
    case 31 => 0xA555467
    case 32 => 0x5504372
    case 33 => 0x9505772
    case 34 => 0x9504172
    case _ => 0x6737467
  }

  lemma OrdinalMarks(i: nat)
    requires i < 7
    ensures |Ordinals(i).name| >= 2 && Marks(Ordinals(i).name) == MarksAt(i)
  {
  }

  lemma IntegerMarks(i: nat)
    requires i < 13
    ensures |Integers(i).name| >= 2 && Marks(Integers(i).name) == MarksAt(i + 7)
  {
  }

  lemma RealMarks(i: nat)
    requires i < 8
    ensures |Reals(i).name| >= 2 && Marks(Reals(i).name) == MarksAt(i + 20)
  {
  }

  lemma StringMarks(i: nat)
    requires i < 8
    ensures |Strings(i).name| >= 2 && Marks(Strings(i).name) == MarksAt(i + 28)
  {
  }

  lemma MarksRight(i: nat)
    requires i < ENTRIES
    ensures |Entry(i).name| >= 2 && Marks(Entry(i).name) == MarksAt(i)
  {
    hide Marks, MarksAt, Ordinals, Integers, Reals, Strings;
    if i < 7 {
      OrdinalMarks(i);
    } else if i < 20 {
      IntegerMarks(i - 7);
    } else if i < 28 {
      RealMarks(i - 20);
    } else {
      StringMarks(i - 28);
    }
  }

  lemma MarksDiffer(i: nat, j: nat)
    requires i < j < ENTRIES
    ensures MarksAt(i) != MarksAt(j)
  {
  }

  /** Every entry is found under its name. */
  lemma FoundByName(i: nat)
    requires i < ENTRIES
    ensures LookupFrom(Entry(i).name, 0) == Some(i)
  {
    hide Entry, MarksAt, Marks;
    var r := LookupFrom(Entry(i).name, 0);
    if r.Some? && r.value != i {
      MarksRight(i);
      MarksRight(r.value);
      MarksDiffer(if i < r.value then i else r.value, if i < r.value then r.value else i);
    }
  }

  /** Where the table has the name under which a kind is described. */
  function IndexOf(k: PrimitiveKind): (i: nat)
    ensures i < ENTRIES
  {
    match k
    case Bool => 0
    case Char => 4
    case WChar => 5
    case Int8 => 7
    case Int16 => 8
    case Int32 => 9
    case Int64 => 11
    case UInt8 => 14
    case UInt16 => 15
    case UInt32 => 16
    case UInt64 => 18
    case Float32 => 20
    case Float64 => 23
    case Float80 => 24
    case PChar => 34
    case PWChar => 33
  }

  /** The described name is that of the entry, which is of the same kind and size but for the 80-bit float. */
  predicate Agrees(k: PrimitiveKind) {
    var d, e := TypeDies.DescribePrimitive(k), Entry(IndexOf(k));
    && d.name == Ascii(e.name)
    && if k == Float80 then e.kind == Float64 && e.byteSize == 8 else e.kind == k && e.byteSize == d.size
  }

  lemma OrdinalsAgree()
    ensures Agrees(Bool) && Agrees(Char) && Agrees(WChar)
  {
    hide Ascii, Integers, Reals, Strings;
  }

  lemma SignedAgree()
    ensures Agrees(Int8) && Agrees(Int16) && Agrees(Int32) && Agrees(Int64)
  {
    hide Ascii, Ordinals, Reals, Strings;
  }

  lemma UnsignedAgree()
    ensures Agrees(UInt8) && Agrees(UInt16) && Agrees(PrimitiveKind.UInt32) && Agrees(PrimitiveKind.UInt64)
  {
    hide Ascii, Ordinals, Reals, Strings;
  }

  lemma FloatsAgree()
    ensures Agrees(PrimitiveKind.Float32) && Agrees(PrimitiveKind.Float64) && Agrees(Float80)
  {
    hide Ascii, Ordinals, Integers, Strings;
  }

  lemma PointersAgree()
    ensures Agrees(PChar) && Agrees(PWChar)
  {
    hide Ascii, Ordinals, Integers, Reals;
  }

  /** The name that a debugger shows for a primitive is that of the same kind and size in the table, except for the
      80-bit float: its name is that of a 64-bit one. */
  lemma DescribedName(k: PrimitiveKind) returns (i: nat)
    ensures i < ENTRIES && TypeDies.DescribePrimitive(k).name == Ascii(Entry(i).name)
    ensures LookupFrom(Entry(i).name, 0) == Some(i)
    ensures Entry(i).kind == k && Entry(i).byteSize == TypeDies.DescribePrimitive(k).size <==> k != Float80
    ensures k == Float80 ==> Entry(i).kind == PrimitiveKind.Float64 && Entry(i).byteSize == 8
  {
    OrdinalsAgree();
    SignedAgree();
    UnsignedAgree();
    FloatsAgree();
    PointersAgree();
    i := IndexOf(k);
    hide Entry;
    FoundByName(i);
    hide TypeDies.DescribePrimitive, IndexOf;
    assert Agrees(k) by { hide Agrees; }
  }

  function SizeOf(ty: TypeRecords.Ty): nat {
    match ty
    case ScalarTy(s) => TypeEmitter.ByteWidth(s)
    case ArrayTy(ScalarTy(s), size) => size
    case _ => 0
  }

  /** The sizes of the built-in types are those of the entries. */
  predicate WidthKept(d: Desc) {
    SizeOf(TypeEmitter.KindTy(d.byteSize, Some(d.kind))) == d.byteSize
  }

  lemma OrdinalWidths(i: nat)
    requires i < 7
    ensures WidthKept(Ordinals(i))
  {
  }

  lemma IntegerWidths(i: nat)
    requires i < 13
    ensures WidthKept(Integers(i))
  {
  }

  lemma RealWidths(i: nat)
    requires i < 8
    ensures WidthKept(Reals(i)) <==> i != 2
    ensures Reals(2).name == "Real48" && Reals(2).byteSize == 6
    ensures SizeOf(TypeEmitter.KindTy(6, Some(Reals(2).kind))) == 8
  {
  }

  lemma StringWidths(i: nat)
    requires i < 8
    ensures WidthKept(Strings(i))
  {
  }

  /** A variable of a type of the table has the type's size in the PDB, except a `Real48`, which is shown two bytes
      longer than it is. */
  lemma TableWidth(i: nat)
    requires i < ENTRIES
    ensures var d := Entry(i); var ty := TypeEmitter.KindTy(d.byteSize, Some(d.kind));
            && (SizeOf(ty) == d.byteSize <==> d.name != "Real48")
            && (d.name == "Real48" ==> d.byteSize == 6 && SizeOf(ty) == 8)
  {
    hide SizeOf, TypeEmitter.KindTy, Ordinals, Integers, Reals, Strings, Marks, MarksAt, LookupFrom;
    FoundByName(i);
    FoundByName(22);
    RealWidths(2);
    if i < 7 {
      OrdinalWidths(i);
    } else if i < 20 {
      IntegerWidths(i - 7);
    } else if i < 28 {
      RealWidths(i - 20);
    } else {
      StringWidths(i - 28);
    }
  }
}
