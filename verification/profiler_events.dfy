/** The allocation event kind of the profiler
    (kotlin-native/runtime/src/main/cpp/profiler/ProfilerEvents.hpp, `AllocationEventTraits`). */
module ProfilerEvents {
  import opened Wrappers
  import opened Text

  /** A `const TypeInfo*`: the identity of a type descriptor. */
  type TypeRef = nat

  /** The fields of a type descriptor that `str` reads through the pointer. */
  datatype TypeDescriptor = TypeDescriptor(packageName: string, relativeName: string, isArray: bool)

  /** `AllocationEventTraits::Allocation`; the array length is 0 unless set. */
  datatype Allocation = Allocation(typeInfo: TypeRef, arrayLength: nat := 0)

  /** `kContextBacktraceDepth`: allocation events keep two frames of context. */
  const CONTEXT_BACKTRACE_DEPTH: nat := 2

  /** `Allocation::operator==`: same descriptor pointer and same array length. */
  function SameAllocation(a: Allocation, b: Allocation): (same: bool)
    ensures same <==> a == b
  {
    a.typeInfo == b.typeInfo && a.arrayLength == b.arrayLength
  }

  /** `Allocation::hash()`; `hashOf` and `CombineHash` are not part of this model. */
  function AllocationHash(a: Allocation, hashType: TypeRef -> int, hashLength: nat -> int,
                          combine: (int, int) -> int): int
  {
    combine(hashType(a.typeInfo), hashLength(a.arrayLength))
  }

  /** Allocations that compare equal hash equal. */
  lemma EqualAllocationsHashEqual(a: Allocation, b: Allocation, hashType: TypeRef -> int,
                                  hashLength: nat -> int, combine: (int, int) -> int)
    requires SameAllocation(a, b)
    ensures AllocationHash(a, hashType, hashLength, combine) == AllocationHash(b, hashType, hashLength, combine)
  {
  }

  /** The fully qualified name: the class name alone for the root package. */
  function QualifiedName(packageName: string, relativeName: string): (name: string)
    ensures |name| == |packageName| + (if packageName == [] then 0 else 1) + |relativeName|
    ensures packageName == [] ==> name == relativeName
    ensures packageName != [] ==> name[..|packageName|] == packageName && name[|packageName|] == '.'
    ensures packageName != [] ==> name[|packageName| + 1..] == relativeName
  {
    if packageName == [] then relativeName else packageName + "." + relativeName
  }

  /** `AllocationEventTraits::str`: the qualified name, and for arrays the length in brackets.
      `describe` reads the descriptor behind the pointer. */
  function AllocationLabel(a: Allocation, describe: TypeRef -> TypeDescriptor): (shown: string)
  {
    var d := describe(a.typeInfo);
    var name := QualifiedName(d.packageName, d.relativeName);
    if d.isArray then name + "[" + NatToString(a.arrayLength) + "]" else name
  }

  /** The last index of `c` in `s`, or -1. */
  function LastIndexOf(s: string, c: char): (i: int)
    ensures -1 <= i < |s|
    ensures i >= 0 ==> s[i] == c
    ensures forall j :: i < j < |s| ==> s[j] != c
  {
    if |s| == 0 then -1
    else if s[|s| - 1] == c then |s| - 1
    else LastIndexOf(s[..|s| - 1], c)
  }

  /** Reads the array length back from a label ending in `[digits]`. */
  function TrailingLength(shown: string): Option<nat> {
    if |shown| < 3 || shown[|shown| - 1] != ']' then None
    else
      var open := LastIndexOf(shown[..|shown| - 1], '[');
      if open < 0 then None
      else
        var digits := shown[open + 1..|shown| - 1];
        if IsDigits(digits) then Some(DigitsValue(digits)) else None
  }

  /** The label of an array allocation carries its length: reading it back gives the length,
      whatever the type is called. A plain type's label is its qualified name alone. */
  lemma {:induction false} AllocationLabelLength(a: Allocation, describe: TypeRef -> TypeDescriptor)
    ensures var d := describe(a.typeInfo);
            d.isArray ==> TrailingLength(AllocationLabel(a, describe)) == Some(a.arrayLength)
    ensures var d := describe(a.typeInfo);
            !d.isArray ==> AllocationLabel(a, describe) == QualifiedName(d.packageName, d.relativeName)
  {
    var d := describe(a.typeInfo);
    if d.isArray {
      var name := QualifiedName(d.packageName, d.relativeName);
      var digits := NatToString(a.arrayLength);
      var shown := name + "[" + digits + "]";
      assert shown[..|shown| - 1] == name + "[" + digits;
      LastIndexOfDigits(name + "[", digits);
      assert shown[|name| + 1..|shown| - 1] == digits;
      NatToStringRoundTrip(a.arrayLength);
    }
  }

  lemma LastIndexOfDigits(head: string, digits: string)
    requires |head| > 0 && head[|head| - 1] == '['
    requires IsDigits(digits)
    ensures LastIndexOf(head + digits, '[') == |head| - 1
  {
    var s := head + digits;
    assert s[|head| - 1] == '[';
    assert forall j :: |head| <= j < |s| ==> s[j] == digits[j - |head|];
  }
}
