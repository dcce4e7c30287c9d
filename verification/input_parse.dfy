/**
 * The input hook: the game's parsed input word is returned unchanged except
 * that holding up and down together (a simultaneous opposing cardinal
 * direction, "SOCD") drops one of the two.
 */
module InputParse {
  import opened Bits

  /** The two vertical direction bits of the parsed input word. */
  const UP_DOWN: bv32 := 0x0C
  const DROPPED: bv32 := 0x08

  /** `input_parse`'s adjustment of the original parser's output. */
  function CleanSocd(output: bv32): bv32 {
    if output & UP_DOWN == UP_DOWN then output & 0xFFFF_FFF7 else output
  }

  /** The result never holds both vertical bits, and cleaning twice is cleaning once. */
  lemma CleanSocdSafe(output: bv32)
    ensures CleanSocd(output) & UP_DOWN != UP_DOWN
    ensures CleanSocd(CleanSocd(output)) == CleanSocd(output)
  {}

  /**
   * The input changes only when both vertical bits were set, and then only by
   * clearing bit 3: every other bit, bit 2 included, is kept.
   */
  lemma CleanSocdMinimal(output: bv32)
    ensures CleanSocd(output) != output <==> output & UP_DOWN == UP_DOWN
    ensures CleanSocd(output) & 0xFFFF_FFF7 == output & 0xFFFF_FFF7
  {
    if output & UP_DOWN == UP_DOWN {
      assert output & DROPPED == DROPPED;
      assert CleanSocd(output) & DROPPED == 0;
    }
  }
}
