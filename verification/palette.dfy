/** `rand_color`: the digits `1`-`9` of a colour mask each stand for a
    colour chosen at random. The nine choices are a parameter. */
module Palette {
  import opened Text
  import opened Render

  /** The colour keys `rand_color` chooses from. */
  const Colors: seq<char> := ['c', 'C', 'r', 'R', 'y', 'Y', 'b', 'B', 'g', 'G', 'm', 'M']

  /** `str(i)` for a single digit. */
  function Digit(i: nat): char
    requires i < 10
  {
    ('0' as int + i) as char
  }

  /** Nine valid outcomes of `random.choice(colors)`, for `1` to `9`. */
  predicate ValidPicks(picks: seq<nat>)
  {
    |picks| == 9 && forall k :: 0 <= k < 9 ==> picks[k] < |Colors|
  }

  /** What a mask character becomes once the digits below `i` have been
      replaced. */
  function RecoloredBelow(c: char, picks: seq<nat>, i: nat): char
    requires ValidPicks(picks)
  {
    if '1' <= c <= '9' && (c as int - '0' as int) < i then Colors[picks[c as int - '1' as int]] else c
  }

  /** What a mask character becomes: digit `d` in `1`-`9` the colour chosen
      for it, anything else itself. */
  function Recolored(c: char, picks: seq<nat>): char
    requires ValidPicks(picks)
  {
    RecoloredBelow(c, picks, 10)
  }

  /** `rand_color(color_mask)` with the nine choices given. */
  method RandColor(mask: string, picks: seq<nat>) returns (r: string)
    requires ValidPicks(picks)
    ensures |r| == |mask|
    ensures forall k :: 0 <= k < |mask| ==> r[k] == Recolored(mask[k], picks)
    ensures forall k :: 0 <= k < |mask| && !('1' <= mask[k] <= '9') ==> r[k] == mask[k]
    ensures forall k :: 0 <= k < |r| ==> !('1' <= r[k] <= '9')
  {
    r := mask;
    var i := 1;
    while i < 10
      invariant 1 <= i <= 10
      invariant |r| == |mask|
      invariant forall k :: 0 <= k < |mask| ==> r[k] == RecoloredBelow(mask[k], picks, i)
    {
      r := ReplaceChar(r, Digit(i), Colors[picks[i - 1]]);
      i := i + 1;
    }
  }

  /** Every colour `rand_color` can choose has a colour pair, so a
      recoloured mask never falls back on the default colour. */
  lemma ColorsHavePairs()
    ensures forall k :: 0 <= k < |Colors| ==> Colors[k] in ColorPairTable
  {
  }
}
