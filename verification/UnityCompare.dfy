/** UnityAssertNumbersWithin and its array form: modular differences that are exact distances. */
module UnityCompare {
  import opened Basics

  /** The two flags of the global Unity record that the assertions touch. */
  class UnityRecord {
    var currentTestFailed: bool
    var currentTestIgnored: bool

    constructor ()
      ensures !currentTestFailed && !currentTestIgnored
    {
      currentTestFailed, currentTestIgnored := false, false;
    }
  }

  /** The display style: a size in bytes in the low four bits, the range as flags above. */
  type Style = s: nat | s < 0x100

  /** style & UNITY_DISPLAY_RANGE_INT */
  predicate IsSigned(style: Style) {
    style / 0x10 % 2 == 1
  }

  // ---------- one comparison ----------

  /** The comparison as it is computed, on 64-bit unsigned values. */
  function ExceedsDelta(delta: uint64, expected: int64, actual: int64, style: Style): bool {
    if IsSigned(style) then
      if actual > expected then Wrap64(Wrap64(actual) - Wrap64(expected)) > delta
      else Wrap64(Wrap64(expected) - Wrap64(actual)) > delta
    else
      if Wrap64(actual) > Wrap64(expected) then Wrap64(Wrap64(actual) - Wrap64(expected)) > delta
      else Wrap64(Wrap64(expected) - Wrap64(actual)) > delta
  }

  function Abs(x: int): nat {
    if x < 0 then -x else x
  }

  /** The distance meant: of the values, or of the values as unsigned ones. */
  function Distance(expected: int64, actual: int64, style: Style): nat {
    if IsSigned(style) then Abs(actual as int - expected as int)
    else Abs(Wrap64(actual) as int - Wrap64(expected) as int)
  }

  lemma UnsignedForm(x: int64)
    ensures Wrap64(x) == if x >= 0 then x else x as int + 0x1_0000_0000_0000_0000
  {
  }

  lemma SmallDifference(x: int)
    requires 0 <= x < 0x1_0000_0000_0000_0000
    ensures Wrap64(x) == x && Wrap64(x - 0x1_0000_0000_0000_0000) == x && Wrap64(x + 0x1_0000_0000_0000_0000) == x
  {
  }

  /** No overflow: the computed comparison is that of the mathematical distance. */
  lemma ComparisonExact(delta: uint64, expected: int64, actual: int64, style: Style)
    ensures ExceedsDelta(delta, expected, actual, style) <==> Distance(expected, actual, style) > delta
  {
    hide Wrap64;
    UnsignedForm(expected);
    UnsignedForm(actual);
    if IsSigned(style) {
      SmallDifference(Abs(actual as int - expected as int));
    } else {
      SmallDifference(Abs(Wrap64(actual) as int - Wrap64(expected) as int));
    }
  }

  /** The test fails exactly when the distance exceeds delta. */
  method AssertNumbersWithin(unity: UnityRecord, delta: uint64, expected: int64, actual: int64, style: Style)
    modifies unity
    ensures unity.currentTestIgnored == old(unity.currentTestIgnored)
    ensures unity.currentTestFailed ==
            if old(unity.currentTestFailed) || old(unity.currentTestIgnored) then old(unity.currentTestFailed)
            else Distance(expected, actual, style) > delta
  {
    if unity.currentTestFailed || unity.currentTestIgnored {
      return;
    }
    ComparisonExact(delta, expected, actual, style);
    unity.currentTestFailed := ExceedsDelta(delta, expected, actual, style);
  }

  // ---------- arrays ----------

  /** Element size in bytes; everything unknown is 4. */
  function Width(style: Style): (w: nat)
    ensures w == 1 || w == 2 || w == 4 || w == 8
  {
    var length := style % 0x10;
    if length == 1 || length == 2 || length == 8 then length else 4
  }

  /** One more than the largest value of w bytes. */
  function Range(w: nat): (r: nat)
    requires w == 1 || w == 2 || w == 4 || w == 8
    ensures r % 2 == 0 && 0 < r <= 0x1_0000_0000_0000_0000
  {
    if w == 1 then 0x100 else if w == 2 then 0x1_0000 else if w == 4 then 0x1_0000_0000 else 0x1_0000_0000_0000_0000
  }

  /**
   * The styles INTn, UINTn, HEXn and CHAR of Unity are a size plus range flags; an element has that
   * many bytes, 4 if the size is an unknown one. Twice the bytes have the square of the values.
   */
  lemma StyleWidths(size: nat, flags: nat)
    requires size < 0x10 && (flags == 0x10 || flags == 0x20 || flags == 0x40 || flags == 0x90)
    ensures Width(flags + size) == if size == 1 || size == 2 || size == 4 || size == 8 then size else 4
    ensures IsSigned(flags + size) <==> flags == 0x10 || flags == 0x90
    ensures Range(1) == 0x100 && (forall w | w == 1 || w == 2 || w == 4 :: Range(2 * w) == Range(w) * Range(w))
  {
  }

  /** Reading an element through a pointer to a signed type, whatever the style. */
  function Read(style: Style, raw: uint64): int64
    requires raw < Range(Width(style))
  {
    if raw < Range(Width(style)) / 2 then raw else raw - Range(Width(style))
  }

  /** Element k of an array, or its only element when a value is compared with an array. */
  function ElementIndex(toArray: bool, k: nat): nat {
    if toArray then k else 0
  }

  ghost predicate Readable(a: seq<uint64>, style: Style, count: nat) {
    count <= |a| && forall k | 0 <= k < count :: a[k] < Range(Width(style))
  }

  predicate Differs(delta: uint64, expected: uint64, actual: uint64, style: Style)
    requires expected < Range(Width(style)) && actual < Range(Width(style))
  {
    Distance(Read(style, expected), Read(style, actual), style) > delta
  }

  /** Some pair among the first `count` ones differs by more than delta, as the code sees it. */
  ghost predicate SomeDiffers(delta: uint64, expected: seq<uint64>, actual: seq<uint64>, count: nat, style: Style,
                              toArray: bool)
    requires Comparable(expected, actual, count, style, toArray)
  {
    exists k :: 0 <= k < count && Differs(delta, expected[ElementIndex(toArray, k)], actual[k], style)
  }

  ghost predicate Comparable(expected: seq<uint64>, actual: seq<uint64>, count: nat, style: Style, toArray: bool) {
    && Readable(actual, style, count)
    && (count > 0 ==> Readable(expected, style, ElementIndex(toArray, count - 1) + 1))
  }

  /**
   * The array form. The two arrays may be the same one, or null. It fails exactly when some pair of
   * elements differs by more than delta, and reports the first such index.
   */
  method AssertNumbersArrayWithin(unity: UnityRecord, delta: uint64, expected: array?<uint64>, actual: array?<uint64>,
                                  numElements: uint32, style: Style, toArray: bool) returns (reported: Option<nat>)
    requires expected != null && numElements > 0 ==>
               Readable(expected[..], style, ElementIndex(toArray, numElements - 1) + 1)
    requires actual != null ==> Readable(actual[..], style, numElements)
    modifies unity
    ensures unity.currentTestIgnored == old(unity.currentTestIgnored)
    ensures old(unity.currentTestFailed) || old(unity.currentTestIgnored)
            ==> reported == None && unity.currentTestFailed == old(unity.currentTestFailed)
    ensures !old(unity.currentTestFailed) && !old(unity.currentTestIgnored) ==>
              if numElements == 0 then unity.currentTestFailed && reported == None
              else if expected == actual then !unity.currentTestFailed && reported == None
              else if expected == null || actual == null then unity.currentTestFailed && reported == None
              else
                && unity.currentTestFailed == SomeDiffers(delta, expected[..], actual[..], numElements, style, toArray)
                && (unity.currentTestFailed <==> reported.Some?)
                && (reported.Some? ==>
                      && reported.value < numElements
                      && Differs(delta, expected[ElementIndex(toArray, reported.value)], actual[reported.value], style)
                      && forall k | 0 <= k < reported.value ::
                           !Differs(delta, expected[ElementIndex(toArray, k)], actual[k], style))
  {
    reported := None;
    if unity.currentTestFailed || unity.currentTestIgnored {
      return;
    }
    if numElements == 0 {
      unity.currentTestFailed := true;
      return;
    }
    if expected == actual {
      return;
    }
    if expected == null || actual == null {
      unity.currentTestFailed := true;
      return;
    }
    hide Distance, ExceedsDelta, Read;
    var elements: nat := numElements;
    while elements > 0
      invariant elements <= numElements && !unity.currentTestFailed
      invariant unity.currentTestIgnored == old(unity.currentTestIgnored)
      invariant forall k | 0 <= k < numElements - elements ::
                  !Differs(delta, expected[ElementIndex(toArray, k)], actual[k], style)
    {
      elements := elements - 1;
      var index := numElements - elements - 1;
      var expectVal := Read(style, expected[ElementIndex(toArray, index)]);
      var actualVal := Read(style, actual[index]);
      ComparisonExact(delta, expectVal, actualVal, style);
      unity.currentTestFailed := ExceedsDelta(delta, expectVal, actualVal, style);
      if unity.currentTestFailed {
        reported := Some(index);
        assert Differs(delta, expected[..][ElementIndex(toArray, index)], actual[..][index], style);
        return;
      }
    }
  }

  // ---------- what the verdict means for the elements ----------

  /** The elements hold values; a negative one is stored in two's complement. */
  function Encode(style: Style, x: int): uint64 {
    x % Range(Width(style))
  }

  /** The values that fit an element of a signed style. */
  predicate Fits(style: Style, x: int) {
    0 - Range(Width(style)) / 2 <= x < Range(Width(style)) / 2
  }

  /** What has been stored is what is read. */
  lemma ReadEncoded(style: Style, x: int)
    requires Fits(style, x)
    ensures Encode(style, x) < Range(Width(style)) && Read(style, Encode(style, x)) == x
  {
  }

  function EncodeAll(style: Style, xs: seq<int>): (raw: seq<uint64>)
    ensures |raw| == |xs|
  {
    seq(|xs|, k requires 0 <= k < |xs| => Encode(style, xs[k]))
  }

  /** In a signed style the array assertion is about the values that the arrays hold. */
  lemma SignedArrayVerdict(delta: uint64, xs: seq<int>, ys: seq<int>, style: Style, toArray: bool)
    requires IsSigned(style) && (if toArray then |xs| == |ys| else |xs| == 1)
    requires (forall x | x in xs :: Fits(style, x)) && forall y | y in ys :: Fits(style, y)
    ensures Comparable(EncodeAll(style, xs), EncodeAll(style, ys), |ys|, style, toArray)
    ensures SomeDiffers(delta, EncodeAll(style, xs), EncodeAll(style, ys), |ys|, style, toArray) <==>
            exists k :: 0 <= k < |ys| && Abs(ys[k] - xs[if toArray then k else 0]) > delta
  {
    hide Range, Width;
    var expected, actual := EncodeAll(style, xs), EncodeAll(style, ys);
    forall k | 0 <= k < |xs| ensures expected[k] < Range(Width(style)) && Read(style, expected[k]) == xs[k] {
      ReadEncoded(style, xs[k]);
    }
    forall k | 0 <= k < |ys| ensures actual[k] < Range(Width(style)) && Read(style, actual[k]) == ys[k] {
      ReadEncoded(style, ys[k]);
    }
    assert forall k | 0 <= k < |ys| ::
        Differs(delta, expected[ElementIndex(toArray, k)], actual[k], style)
        <==> Abs(ys[k] - xs[if toArray then k else 0]) > delta;
  }

  /** The distance of two stored elements as unsigned values. */
  function Gap(expected: uint64, actual: uint64): int {
    Abs(actual as int - expected as int)
  }

  predicate TopBit(style: Style, raw: uint64) {
    raw >= Range(Width(style)) / 2
  }

  /** Reading both elements as signed ones makes them look too far apart. */
  predicate Misread(delta: uint64, expected: uint64, actual: uint64, style: Style) {
    && TopBit(style, expected) != TopBit(style, actual)
    && Gap(expected, actual) <= delta
    && delta < Gap(expected, actual) + 0x1_0000_0000_0000_0000 - Range(Width(style))
  }

  /** In an unsigned style a pair is seen as differing when it differs by more than delta, or is misread. */
  lemma UnsignedElements(delta: uint64, expected: uint64, actual: uint64, style: Style)
    requires !IsSigned(style) && expected < Range(Width(style)) && actual < Range(Width(style))
    ensures Differs(delta, expected, actual, style) <==>
            Gap(expected, actual) > delta || Misread(delta, expected, actual, style)
  {
    hide Wrap64, Range;
    UnsignedForm(Read(style, expected));
    UnsignedForm(Read(style, actual));
  }

  /**
   * In an unsigned style narrow elements are read as signed ones. The verdict of the array assertion
   * is the intended one exactly when some pair really exceeds delta, or no pair is misread.
   */
  lemma UnsignedArrayVerdict(delta: uint64, expected: seq<uint64>, actual: seq<uint64>, count: nat, style: Style,
                             toArray: bool)
    requires !IsSigned(style) && Comparable(expected, actual, count, style, toArray)
    ensures var exceeds := exists k :: 0 <= k < count && Gap(expected[if toArray then k else 0], actual[k]) > delta;
            (SomeDiffers(delta, expected, actual, count, style, toArray) <==> exceeds) <==>
            (exceeds || forall k | 0 <= k < count ::
               !Misread(delta, expected[if toArray then k else 0], actual[k], style))
  {
    hide Differs, Misread;
    forall k | 0 <= k < count
      ensures Differs(delta, expected[ElementIndex(toArray, k)], actual[k], style) <==>
              || Gap(expected[ElementIndex(toArray, k)], actual[k]) > delta
              || Misread(delta, expected[ElementIndex(toArray, k)], actual[k], style)
    {
      UnsignedElements(delta, expected[ElementIndex(toArray, k)], actual[k], style);
    }
  }

  /** 255 and 1 as UINT8 elements differ by 254, yet are reported as further apart than 254. */
  lemma UnsignedElementsFail()
    ensures !IsSigned(0x21) && Width(0x21) == 1
    ensures Comparable([1], [255], 1, 0x21, true)
    ensures SomeDiffers(254, [1], [255], 1, 0x21, true) && Gap(1, 255) <= 254
  {
    UnsignedForm(Read(0x21, 255));
    assert Differs(254, [1][ElementIndex(true, 0)], [255][0], 0x21);
  }
}
