/** The preflight of a direct call that a hook is about to replace: E8 rel32, as the CALL entry of the
    Intel 64 and IA-32 Architectures Software Developer's Manual, volume 2A, encodes it. Addresses are
    a bounded integer type, so the verifier checks that no address operation wraps. */
module HookPreflight {
  import opened Arithmetic
  import opened Common

  newtype uintptr = x: int | 0 <= x < UINT64_SIZE

  const ADDRESS_MAX: uintptr := 0xFFFF_FFFF_FFFF_FFFF
  const SIGNATURE_CAPACITY: nat := 32

  newtype byte = x: int | 0 <= x < 256
  type SignatureBytes = s: seq<byte> | |s| == SIGNATURE_CAPACITY witness seq(SIGNATURE_CAPACITY, _ => 0)

  datatype CodeSignature = CodeSignature(
    length: nat, bytes: SignatureBytes, mask: SignatureBytes, expectedTargetRva: uintptr, approved: bool)

  datatype Failure =
    | Valid
    | Unreadable
    | NoExpectedTargetRecorded
    | NotExecutable
    | TruncatedCall
    | WrongOpcode
    | AddressOverflow
    | TargetOutsideModule
    | TargetNotExecutable
    | SignatureUnapproved
    | InvalidSignature
    | SignatureMismatch
    | UnexpectedTarget

  datatype ValidationResult = ValidationResult(failure: Failure, target: uintptr)

  predicate RangeContains(begin: uintptr, end: uintptr, address: uintptr, size: nat) {
    begin < end && begin <= address < end && size <= (end - address) as int
  }

  // ---------------------------------------------------------------------------------------
  // Signatures
  // ---------------------------------------------------------------------------------------

  predicate MaskedEqual(x: bv8, y: bv8, mask: bv8) {
    x & mask == y & mask
  }

  predicate MatchesAt(observed: seq<byte>, signature: CodeSignature, index: nat)
    requires index < |observed| && index < SIGNATURE_CAPACITY
  {
    MaskedEqual(observed[index] as bv8, signature.bytes[index] as bv8, signature.mask[index] as bv8)
  }

  function Bit(i: nat): bv8
    requires i < 8
  {
    if i == 0 then 1 else if i == 1 then 2 else if i == 2 then 4 else if i == 3 then 8
    else if i == 4 then 16 else if i == 5 then 32 else if i == 6 then 64 else 128
  }

  /** If bit `i` of the mask is set, `x` and `y` agree in bit `i`. */
  predicate BitAgrees(x: bv8, y: bv8, mask: bv8, i: nat)
    requires i < 8
  {
    mask & Bit(i) != 0 ==> (x & Bit(i) != 0 <==> y & Bit(i) != 0)
  }

  lemma EveryBit(x: bv8, y: bv8, mask: bv8)
    ensures MaskedEqual(x, y, mask)
            <==> && (mask & 1 != 0 ==> (x & 1 != 0 <==> y & 1 != 0))
                 && (mask & 2 != 0 ==> (x & 2 != 0 <==> y & 2 != 0))
                 && (mask & 4 != 0 ==> (x & 4 != 0 <==> y & 4 != 0))
                 && (mask & 8 != 0 ==> (x & 8 != 0 <==> y & 8 != 0))
                 && (mask & 16 != 0 ==> (x & 16 != 0 <==> y & 16 != 0))
                 && (mask & 32 != 0 ==> (x & 32 != 0 <==> y & 32 != 0))
                 && (mask & 64 != 0 ==> (x & 64 != 0 <==> y & 64 != 0))
                 && (mask & 128 != 0 ==> (x & 128 != 0 <==> y & 128 != 0))
  {
  }

  lemma NamedBits(x: bv8, y: bv8, mask: bv8)
    ensures BitAgrees(x, y, mask, 0) == (mask & 1 != 0 ==> (x & 1 != 0 <==> y & 1 != 0))
    ensures BitAgrees(x, y, mask, 1) == (mask & 2 != 0 ==> (x & 2 != 0 <==> y & 2 != 0))
    ensures BitAgrees(x, y, mask, 2) == (mask & 4 != 0 ==> (x & 4 != 0 <==> y & 4 != 0))
    ensures BitAgrees(x, y, mask, 3) == (mask & 8 != 0 ==> (x & 8 != 0 <==> y & 8 != 0))
    ensures BitAgrees(x, y, mask, 4) == (mask & 16 != 0 ==> (x & 16 != 0 <==> y & 16 != 0))
    ensures BitAgrees(x, y, mask, 5) == (mask & 32 != 0 ==> (x & 32 != 0 <==> y & 32 != 0))
    ensures BitAgrees(x, y, mask, 6) == (mask & 64 != 0 ==> (x & 64 != 0 <==> y & 64 != 0))
    ensures BitAgrees(x, y, mask, 7) == (mask & 128 != 0 ==> (x & 128 != 0 <==> y & 128 != 0))
  {
  }

  lemma AllEight(x: bv8, y: bv8, mask: bv8)
    ensures (forall i | 0 <= i < 8 :: BitAgrees(x, y, mask, i))
            <==> && BitAgrees(x, y, mask, 0) && BitAgrees(x, y, mask, 1) && BitAgrees(x, y, mask, 2)
                 && BitAgrees(x, y, mask, 3) && BitAgrees(x, y, mask, 4) && BitAgrees(x, y, mask, 5)
                 && BitAgrees(x, y, mask, 6) && BitAgrees(x, y, mask, 7)
  {
    hide BitAgrees;
  }

  lemma BitsDecide(x: bv8, y: bv8, mask: bv8)
    ensures MaskedEqual(x, y, mask) <==> forall i | 0 <= i < 8 :: BitAgrees(x, y, mask, i)
  {
    hide *;
    EveryBit(x, y, mask);
    NamedBits(x, y, mask);
    AllEight(x, y, mask);
  }

  predicate BitMatches(observed: seq<byte>, signature: CodeSignature, index: nat, i: nat)
    requires index < |observed| && index < SIGNATURE_CAPACITY && i < 8
  {
    BitAgrees(observed[index] as bv8, signature.bytes[index] as bv8, signature.mask[index] as bv8, i)
  }

  /** A byte matches when it agrees with the signature in every bit of the mask; the other bits do not matter. */
  lemma MatchIsByBits(observed: seq<byte>, signature: CodeSignature, index: nat)
    requires index < |observed| && index < SIGNATURE_CAPACITY
    ensures MatchesAt(observed, signature, index)
            <==> forall i | 0 <= i < 8 :: BitMatches(observed, signature, index, i)
  {
    hide BitAgrees, MaskedEqual;
    BitsDecide(observed[index] as bv8, signature.bytes[index] as bv8, signature.mask[index] as bv8);
    if forall i | 0 <= i < 8 :: BitMatches(observed, signature, index, i) {
      AllMatch(observed, signature, index);
    }
  }

  lemma AllMatch(observed: seq<byte>, signature: CodeSignature, index: nat)
    requires index < |observed| && index < SIGNATURE_CAPACITY
    requires forall i | 0 <= i < 8 :: BitMatches(observed, signature, index, i)
    ensures MatchesAt(observed, signature, index)
  {
    hide BitAgrees, MaskedEqual;
    var x, y, mask := observed[index] as bv8, signature.bytes[index] as bv8, signature.mask[index] as bv8;
    forall i | 0 <= i < 8
      ensures BitAgrees(x, y, mask, i)
    {
      assert BitMatches(observed, signature, index, i);
    }
    BitsDecide(x, y, mask);
  }

  predicate Comparable(observed: seq<byte>, signature: CodeSignature) {
    0 < signature.length <= SIGNATURE_CAPACITY && signature.length <= |observed|
  }

  predicate Matches(observed: seq<byte>, signature: CodeSignature)
    requires Comparable(observed, signature)
  {
    forall index | 0 <= index < signature.length :: MatchesAt(observed, signature, index)
  }

  function SignatureVerdict(observed: seq<byte>, signature: CodeSignature): Failure {
    if !signature.approved then SignatureUnapproved
    else if !Comparable(observed, signature) then InvalidSignature
    else if !Matches(observed, signature) then SignatureMismatch
    else Valid
  }

  method ValidateCodeSignature(observed: seq<byte>, signature: CodeSignature) returns (failure: Failure)
    ensures failure == SignatureVerdict(observed, signature)
  {
    hide MatchesAt;
    if !signature.approved {
      return SignatureUnapproved;
    }
    if signature.length == 0 || signature.length > SIGNATURE_CAPACITY || |observed| < signature.length {
      return InvalidSignature;
    }
    for index := 0 to signature.length
      invariant forall k | 0 <= k < index :: MatchesAt(observed, signature, k)
    {
      if !MatchesAt(observed, signature, index) {
        return SignatureMismatch;
      }
    }
    return Valid;
  }

  // ---------------------------------------------------------------------------------------
  // The call
  // ---------------------------------------------------------------------------------------

  const OPCODE: byte := 0xE8

  /** The four bytes after the opcode, least significant first. */
  function RawDisplacement(call: seq<byte>): (raw: int)
    requires |call| >= 5
    ensures 0 <= raw < UINT32_SIZE
  {
    call[1] as int + call[2] as int * 0x100 + call[3] as int * 0x1_0000 + call[4] as int * 0x100_0000
  }

  /** The displacement as a signed 32-bit value. */
  function Displacement(call: seq<byte>): (displacement: int)
    requires |call| >= 5
    ensures -0x8000_0000 <= displacement < 0x8000_0000
    ensures (displacement - RawDisplacement(call)) % UINT32_SIZE == 0
  {
    var raw := RawDisplacement(call);
    if raw <= 0x7FFF_FFFF then raw else raw - UINT32_SIZE
  }

  function ValidateDirectCall(
    call: seq<byte>, signatureBytes: seq<byte>, callAddress: uintptr, moduleBegin: uintptr, moduleEnd: uintptr,
    callReadable: bool, callExecutable: bool, targetExecutable: bool, signature: CodeSignature): ValidationResult
  {
    if !callReadable then ValidationResult(Unreadable, 0)
    else if !callExecutable then ValidationResult(NotExecutable, 0)
    else if |call| < 5 then ValidationResult(TruncatedCall, 0)
    else if call[0] != OPCODE then ValidationResult(WrongOpcode, 0)
    else if callAddress > ADDRESS_MAX - 5 then ValidationResult(AddressOverflow, 0)
    else
      var displacement, next := Displacement(call), callAddress + 5;
      if displacement >= 0 && next > ADDRESS_MAX - displacement as uintptr then ValidationResult(AddressOverflow, 0)
      else if displacement < 0 && (-displacement) as uintptr > next then ValidationResult(AddressOverflow, 0)
      else
        var target := if displacement >= 0 then next + displacement as uintptr else next - (-displacement) as uintptr;
        if !RangeContains(moduleBegin, moduleEnd, target, 1) then ValidationResult(TargetOutsideModule, target)
        else if !targetExecutable then ValidationResult(TargetNotExecutable, target)
        else
          var verdict := SignatureVerdict(signatureBytes, signature);
          if verdict != Valid then ValidationResult(verdict, target)
          else if signature.expectedTargetRva == 0 then ValidationResult(NoExpectedTargetRecorded, target)
          else if signature.expectedTargetRva > moduleEnd - moduleBegin
                  || moduleBegin > ADDRESS_MAX - signature.expectedTargetRva
          then ValidationResult(InvalidSignature, target)
          else if target != moduleBegin + signature.expectedTargetRva then ValidationResult(UnexpectedTarget, target)
          else ValidationResult(Valid, target)
  }

  /** A call is valid exactly when it is a readable, executable E8 call whose integer target, the address
      after it plus the signed displacement, lies in the module at the recorded offset behind a matching
      approved signature; the result then carries that target. */
  lemma ValidExactlyWhenExpected(
    call: seq<byte>, signatureBytes: seq<byte>, callAddress: uintptr, moduleBegin: uintptr, moduleEnd: uintptr,
    callReadable: bool, callExecutable: bool, targetExecutable: bool, signature: CodeSignature)
    ensures
      var r := ValidateDirectCall(call, signatureBytes, callAddress, moduleBegin, moduleEnd,
                                  callReadable, callExecutable, targetExecutable, signature);
      && (r.failure == Valid <==>
            && callReadable && callExecutable && targetExecutable
            && |call| >= 5 && call[0] == 0xE8 && callAddress as int + 5 < 0x1_0000_0000_0000_0000
            && signature.approved && 0 < signature.length <= 32 && signature.length <= |signatureBytes|
            && (forall index | 0 <= index < signature.length :: MatchesAt(signatureBytes, signature, index))
            && signature.expectedTargetRva > 0
            && var target := callAddress as int + 5 + Displacement(call);
               moduleBegin as int <= target < moduleEnd as int
               && target == moduleBegin as int + signature.expectedTargetRva as int)
      && (r.failure == Valid ==> r.target as int == callAddress as int + 5 + Displacement(call))
  {
    hide Displacement, RawDisplacement, MatchesAt;
  }

  /** Both overflow guards together reject exactly the calls whose integer target is not an address. */
  lemma OverflowMeansNoAddress(
    call: seq<byte>, signatureBytes: seq<byte>, callAddress: uintptr, moduleBegin: uintptr, moduleEnd: uintptr,
    targetExecutable: bool, signature: CodeSignature)
    requires |call| >= 5 && call[0] == OPCODE
    ensures ValidateDirectCall(call, signatureBytes, callAddress, moduleBegin, moduleEnd,
                               true, true, targetExecutable, signature).failure == AddressOverflow
            <==> callAddress as int + 5 >= UINT64_SIZE
                 || !(0 <= callAddress as int + 5 + Displacement(call) < UINT64_SIZE)
  {
    hide Displacement, Matches, RawDisplacement;
  }

  /** Nothing before the target is wrong: the call can be read, is direct, and leads to an address. */
  predicate LeadsToAddress(call: seq<byte>, callAddress: uintptr, callReadable: bool, callExecutable: bool) {
    && callReadable && callExecutable && |call| >= 5 && call[0] == 0xE8
    && callAddress as int + 5 < 0x1_0000_0000_0000_0000
    && 0 <= callAddress as int + 5 + Displacement(call) < 0x1_0000_0000_0000_0000
  }

  /** Which failure is reported before the target is known, in the order of the tests; no target comes with it. */
  lemma EarlyFailuresAreExact(
    call: seq<byte>, signatureBytes: seq<byte>, callAddress: uintptr, moduleBegin: uintptr, moduleEnd: uintptr,
    callReadable: bool, callExecutable: bool, targetExecutable: bool, signature: CodeSignature)
    requires !LeadsToAddress(call, callAddress, callReadable, callExecutable)
    ensures ValidateDirectCall(call, signatureBytes, callAddress, moduleBegin, moduleEnd,
                               callReadable, callExecutable, targetExecutable, signature)
            == ValidationResult(if !callReadable then Unreadable else if !callExecutable then NotExecutable
                                else if |call| < 5 then TruncatedCall else if call[0] != 0xE8 then WrongOpcode
                                else AddressOverflow, 0)
  {
    hide Displacement, RawDisplacement, Matches;
  }

  /** Once the target is known, over the integers, every result carries it, with the first failure that applies. */
  lemma LateFailuresAreExact(
    call: seq<byte>, signatureBytes: seq<byte>, callAddress: uintptr, moduleBegin: uintptr, moduleEnd: uintptr,
    callReadable: bool, callExecutable: bool, targetExecutable: bool, signature: CodeSignature)
    requires LeadsToAddress(call, callAddress, callReadable, callExecutable)
    ensures
      var r := ValidateDirectCall(call, signatureBytes, callAddress, moduleBegin, moduleEnd,
                                  callReadable, callExecutable, targetExecutable, signature);
      var target, begin, end := callAddress as int + 5 + Displacement(call), moduleBegin as int, moduleEnd as int;
      && r.target as int == target
      && r.failure == if !(begin <= target < end) then TargetOutsideModule
                      else if !targetExecutable then TargetNotExecutable
                      else if !signature.approved then SignatureUnapproved
                      else if !(0 < signature.length <= 32 && signature.length <= |signatureBytes|)
                      then InvalidSignature
                      else if exists k | 0 <= k < signature.length :: !MatchesAt(signatureBytes, signature, k)
                      then SignatureMismatch
                      else if signature.expectedTargetRva == 0 then NoExpectedTargetRecorded
                      else if signature.expectedTargetRva as int > end - begin then InvalidSignature
                      else if target != begin + signature.expectedTargetRva as int then UnexpectedTarget
                      else Valid
  {
    hide Displacement, RawDisplacement, MatchesAt;
  }

  // ---------------------------------------------------------------------------------------
  // Encoding
  // ---------------------------------------------------------------------------------------

  predicate InReach(callAddress: int, target: int) {
    -0x8000_0000 <= target - (callAddress + 5) < 0x8000_0000
  }

  /** The five bytes of a direct call from `callAddress` to `target`. */
  function EncodeCall(callAddress: int, target: int): (call: seq<byte>)
    requires InReach(callAddress, target)
    ensures |call| == 5
  {
    var displacement := target - (callAddress + 5);
    var raw := if displacement >= 0 then displacement else displacement + UINT32_SIZE;
    [OPCODE, (raw % 0x100) as byte, (raw / 0x100 % 0x100) as byte, (raw / 0x1_0000 % 0x100) as byte,
     (raw / 0x100_0000) as byte]
  }

  lemma DigitsRecombine(raw: int)
    requires 0 <= raw < UINT32_SIZE
    ensures raw
            == raw % 0x100 + raw / 0x100 % 0x100 * 0x100 + raw / 0x1_0000 % 0x100 * 0x1_0000
               + raw / 0x100_0000 * 0x100_0000
  {
  }

  /** Encoding any target within reach and decoding the call gives the target back. */
  lemma DecodingUndoesEncoding(callAddress: int, target: int)
    requires InReach(callAddress, target)
    ensures var call := EncodeCall(callAddress, target);
            call[0] == 0xE8 && callAddress + 5 + Displacement(call) == target
  {
    var displacement := target - (callAddress + 5);
    DigitsRecombine(if displacement >= 0 then displacement else displacement + UINT32_SIZE);
  }

  lemma DigitsOfSum(a: int, b: int, c: int, d: int)
    requires 0 <= a < 256 && 0 <= b < 256 && 0 <= c < 256 && 0 <= d < 256
    ensures var raw := a + b * 0x100 + c * 0x1_0000 + d * 0x100_0000;
            raw % 0x100 == a && raw / 0x100 % 0x100 == b && raw / 0x1_0000 % 0x100 == c && raw / 0x100_0000 == d
  {
    var raw := a + b * 0x100 + c * 0x1_0000 + d * 0x100_0000;
    UniqueQuotient(raw, 0x100, b + c * 0x100 + d * 0x1_0000, a);
    UniqueQuotient(b + c * 0x100 + d * 0x1_0000, 0x100, c + d * 0x100, b);
    UniqueQuotient(raw, 0x1_0000, c + d * 0x100, a + b * 0x100);
    UniqueQuotient(c + d * 0x100, 0x100, d, c);
    UniqueQuotient(raw, 0x100_0000, d, a + b * 0x100 + c * 0x1_0000);
  }

  /** Encoding the decoded target of any direct call gives the call's bytes back. */
  lemma EncodingUndoesDecoding(call: seq<byte>, callAddress: int)
    requires |call| == 5 && call[0] == OPCODE
    ensures EncodeCall(callAddress, callAddress + 5 + Displacement(call)) == call
  {
    hide *;
    var target := callAddress + 5 + Displacement(call);
    RawOfDisplacement(call);
    WithinReach(callAddress, target);
    var encoded := EncodeCall(callAddress, target);
    EncodedBytes(callAddress, target, RawDisplacement(call));
    RawIsDigits(call);
    DigitsOfSum(call[1] as int, call[2] as int, call[3] as int, call[4] as int);
  }

  lemma RawOfDisplacement(call: seq<byte>)
    requires |call| >= 5
    ensures var d := Displacement(call); RawDisplacement(call) == if d >= 0 then d else d + UINT32_SIZE
  {
  }

  lemma WithinReach(callAddress: int, target: int)
    ensures InReach(callAddress, target) <==> -0x8000_0000 <= target - (callAddress + 5) < 0x8000_0000
  {
  }

  lemma RawIsDigits(call: seq<byte>)
    requires |call| >= 5
    ensures RawDisplacement(call)
            == call[1] as int + call[2] as int * 0x100 + call[3] as int * 0x1_0000 + call[4] as int * 0x100_0000
  {
  }

  lemma EncodedBytes(callAddress: int, target: int, raw: int)
    requires InReach(callAddress, target) && 0 <= raw < UINT32_SIZE
    requires raw == (var d := target - (callAddress + 5); if d >= 0 then d else d + UINT32_SIZE)
    ensures var call := EncodeCall(callAddress, target);
            && call[0] == OPCODE
            && call[1] as int == raw % 0x100 && call[2] as int == raw / 0x100 % 0x100
            && call[3] as int == raw / 0x1_0000 % 0x100 && call[4] as int == raw / 0x100_0000
  {
  }
}
