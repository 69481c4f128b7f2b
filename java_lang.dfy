/** The pieces of `java.lang` and `java.util.Objects` that `PlayerCriteria` relies on. */
module JavaLang {

  /** A Java `int`. */
  type Int32 = x: int | -0x8000_0000 <= x < 0x8000_0000

  /** Two's-complement wrap-around of Java `int` arithmetic. */
  function Wrap32(x: int): (r: Int32)
    ensures (r - x) % 0x1_0000_0000 == 0
    ensures -0x8000_0000 <= x < 0x8000_0000 ==> r == x
  {
    var m := x % 0x1_0000_0000;
    if m < 0x8000_0000 then m else m - 0x1_0000_0000
  }

  /**
   * `Objects.hash(a, b, ...)`, that is `Arrays.hashCode`: starting from 1,
   * `31 * result + h` for each element hash in turn, in `int` arithmetic.
   */
  function HashOf(hashes: seq<Int32>): Int32
  {
    if hashes == [] then 1
    else Wrap32(31 * HashOf(hashes[..|hashes| - 1]) + hashes[|hashes| - 1])
  }

  /** Hashing one more element: the previous result times 31, plus its hash, wrapped. */
  lemma HashOfSnoc(hashes: seq<Int32>, h: Int32)
    ensures HashOf(hashes + [h]) == Wrap32(31 * HashOf(hashes) + h)
  {
    assert (hashes + [h])[..|hashes|] == hashes;
  }

  /** `Objects.hash` of nine nulls: 31 to the ninth power, wrapped to an `int`. */
  lemma NineNullsHash()
    ensures HashOf([0, 0, 0, 0, 0, 0, 0, 0, 0]) == -196513505
  {
    var zeros: seq<Int32> := [];
    HashOfSnoc(zeros, 0);
    assert Wrap32(31 * 1) == 31;
    zeros := zeros + [0];
    HashOfSnoc(zeros, 0);
    assert Wrap32(31 * 31) == 961;
    zeros := zeros + [0];
    HashOfSnoc(zeros, 0);
    assert Wrap32(31 * 961) == 29791;
    zeros := zeros + [0];
    HashOfSnoc(zeros, 0);
    assert Wrap32(31 * 29791) == 923521;
    zeros := zeros + [0];
    HashOfSnoc(zeros, 0);
    assert Wrap32(31 * 923521) == 28629151;
    zeros := zeros + [0];
    HashOfSnoc(zeros, 0);
    assert Wrap32(31 * 28629151) == 887503681;
    zeros := zeros + [0];
    HashOfSnoc(zeros, 0);
    assert Wrap32(31 * 887503681) == 1742810335;
    zeros := zeros + [0];
    HashOfSnoc(zeros, 0);
    assert Wrap32(31 * 1742810335) == -1807454463;
    zeros := zeros + [0];
    HashOfSnoc(zeros, 0);
    assert Wrap32(31 * -1807454463) == -196513505;
    zeros := zeros + [0];
    assert zeros == [0, 0, 0, 0, 0, 0, 0, 0, 0];
  }

  /** `Boolean.hashCode`. */
  function BooleanHash(b: bool): Int32
  {
    if b then 1231 else 1237
  }

  /** `Boolean.toString`. */
  function BooleanString(b: bool): string
  {
    if b then "true" else "false"
  }
}
