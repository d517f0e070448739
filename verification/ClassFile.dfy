/** The constants of a class file, field by field: sections 4.4.1 to 4.4.12 of the Java Virtual Machine Specification. */
module ClassFile {
  import opened Bytes

  type U2 = n: int | 0 <= n < 0x1_0000

  type U4 = n: int | 0 <= n < 0x1_0000_0000

  datatype Constant =
    | Utf8Info(bytes: seq<Byte>)
    | IntegerInfo(value: U4)
    | FloatInfo(value: U4)
    | LongInfo(high: U4, low: U4)
    | DoubleInfo(high: U4, low: U4)
    | ClassInfo(name: U2)
    | StringInfo(text: U2)
    | FieldrefInfo(class_: U2, nameAndType: U2)
    | MethodrefInfo(class_: U2, nameAndType: U2)
    | InterfaceMethodrefInfo(class_: U2, nameAndType: U2)
    | NameAndTypeInfo(name: U2, descriptor: U2)
    | MethodHandleInfo(kind: Byte, reference: U2)
    | MethodTypeInfo(descriptor: U2)
    | DynamicInfo(bootstrap: U2, nameAndType: U2)
    | InvokeDynamicInfo(bootstrap: U2, nameAndType: U2)
    | ModuleInfo(name: U2)
    | PackageInfo(name: U2)

  function WriteU2(n: U2): seq<Byte> { [n / 256, n % 256] }

  function WriteU4(n: U4): seq<Byte> { [n / 0x100_0000, n / 0x1_0000 % 256, n / 256 % 256, n % 256] }

  /** A text of more than 65535 bytes is no constant. */
  predicate ConstantOk(c: Constant) { c.Utf8Info? ==> |c.bytes| <= 65535 }

  function WriteConstant(c: Constant): seq<Byte>
    requires ConstantOk(c)
  {
    match c
    case Utf8Info(bytes) => [1] + WriteU2(|bytes|) + bytes
    case IntegerInfo(value) => [3] + WriteU4(value)
    case FloatInfo(value) => [4] + WriteU4(value)
    case LongInfo(high, low) => [5] + (WriteU4(high) + WriteU4(low))
    case DoubleInfo(high, low) => [6] + (WriteU4(high) + WriteU4(low))
    case ClassInfo(name) => [7] + WriteU2(name)
    case StringInfo(text) => [8] + WriteU2(text)
    case FieldrefInfo(class_, nameAndType) => [9] + (WriteU2(class_) + WriteU2(nameAndType))
    case MethodrefInfo(class_, nameAndType) => [10] + (WriteU2(class_) + WriteU2(nameAndType))
    case InterfaceMethodrefInfo(class_, nameAndType) => [11] + (WriteU2(class_) + WriteU2(nameAndType))
    case NameAndTypeInfo(name, descriptor) => [12] + (WriteU2(name) + WriteU2(descriptor))
    case MethodHandleInfo(kind, reference) => [15] + ([kind] + WriteU2(reference))
    case MethodTypeInfo(descriptor) => [16] + WriteU2(descriptor)
    case DynamicInfo(bootstrap, nameAndType) => [17] + (WriteU2(bootstrap) + WriteU2(nameAndType))
    case InvokeDynamicInfo(bootstrap, nameAndType) => [18] + (WriteU2(bootstrap) + WriteU2(nameAndType))
    case ModuleInfo(name) => [19] + WriteU2(name)
    case PackageInfo(name) => [20] + WriteU2(name)
  }

  predicate ConstantsOk(cs: seq<Constant>) { forall c <- cs :: ConstantOk(c) }

  function WriteConstants(cs: seq<Constant>): seq<Byte>
    requires ConstantsOk(cs)
  {
    if cs == [] then [] else WriteConstant(cs[0]) + WriteConstants(cs[1..])
  }

  /** How many indices of the pool the constants take: Long and Double two each. */
  function Indices(cs: seq<Constant>): nat {
    if cs == [] then 0 else (if cs[0].LongInfo? || cs[0].DoubleInfo? then 2 else 1) + Indices(cs[1..])
  }

  // ---- What a rewriting is ----

  predicate HeaderOk(data: seq<Byte>) {
    10 <= |data| <= 16_777_216 && data[0] == 0xCA && data[1] == 0xFE && data[2] == 0xBA && data[3] == 0xBE
  }

  predicate ReplacementsOk(replacements: map<seq<Byte>, seq<Byte>>) {
    && |replacements| > 0
    && forall old_ <- replacements ::
         && |old_| > 0 && |replacements[old_]| <= 65535
         && (forall b <- old_ :: b <= 127) && forall b <- replacements[old_] :: b <= 127
  }

  /** The file is a header that counts the indices, the constants, and at least 14 bytes more. */
  predicate Consists(data: seq<Byte>, cs: seq<Constant>, tail: seq<Byte>) {
    && |data| >= 10 && ConstantsOk(cs) && |tail| >= 14
    && data == data[..10] + WriteConstants(cs) + tail
    && data[8] as int * 256 + data[9] as int == 1 + Indices(cs)
  }

  /** Exactly one constant is this text. */
  predicate StandsOnce(cs: seq<Constant>, text: seq<Byte>) {
    exists i :: 0 <= i < |cs| && cs[i] == Utf8Info(text) && forall j :: 0 <= j < |cs| && j != i ==> cs[j] != Utf8Info(text)
  }

  /** The constants after the replacement: the texts that are keys have their new text, all others are the same. */
  predicate Replaced(cs: seq<Constant>, changed: seq<Constant>, replacements: map<seq<Byte>, seq<Byte>>) {
    && |changed| == |cs|
    && forall i :: 0 <= i < |cs| ==>
         changed[i] == if cs[i].Utf8Info? && cs[i].bytes in replacements then Utf8Info(replacements[cs[i].bytes]) else cs[i]
  }

  /** The result of a replacement: the same header, the constants with the new texts, the same rest. */
  ghost predicate Rewrites(data: seq<Byte>, replacements: map<seq<Byte>, seq<Byte>>, out: seq<Byte>) {
    && HeaderOk(data) && ReplacementsOk(replacements)
    && exists cs: seq<Constant>, tail: seq<Byte>, changed: seq<Constant> ::
         && Consists(data, cs, tail) && (forall old_ <- replacements :: StandsOnce(cs, old_))
         && Replaced(cs, changed, replacements) && ConstantsOk(changed)
         && out == data[..10] + WriteConstants(changed) + tail
  }
}
