/** The four narrative calls of the treasure hunt. Each is stateless; only
    `searchTemple` can reject, and only `openTreasureBox` depends on chance
    (here the value `Math.random()` returned, passed in). */
module Narrative {
  import opened Common

  /** The word the decoded clue must mention: "temple". */
  const TempleWord: string := "神庙"

  /** The parchment text `getInitialClue` resolves with. */
  const InitialClue: string :=
    "你发现了一张古老的羊皮纸，" + "上面写着神秘的符号：" + "\"𐌵𐌿𐌳𐌰𐌽𐌰 𐌽𐌰𐍃𐍄𐍉𐍂 " + "𐌲𐌿𐍄𐍉𐍂 𐌳𐌰𐌽 𐍅𐌰𐌸𐌾𐍉𐍃\""

  /** The text `decodeAncientScript` resolves with, whatever it is given. */
  const DecodedClue: string :=
    "你成功解码了文字：" + "\"神秘的神庙隐藏在东方的洞穴中\"。" + "看来神庙是你的下一个目的地。"

  /** What `searchTemple` resolves with when the clue is understood. */
  const ChestFound: string := "在神庙的中心，你发现了一个神秘的宝箱。它似乎被运到了隐秘的洞穴中！"

  /** The three rewards `openTreasureBox` chooses from, and the suffix it appends. */
  const Treasures: seq<string> := [
    "恭喜！你找到了传说中的\"智慧之石\"！",
    "太棒了！你获得了\"永恒的宝藏\"！",
    "惊人！你解开了千年之谜，获得了无尽的知识和财富！"
  ]
  const CompletionSuffix: string := " 你完成了这次寻宝之旅！"

  /** `w` occurs in `s` starting at index `i`. */
  ghost predicate OccursAt(s: string, w: string, i: int) {
    0 <= i && i + |w| <= |s| && s[i..i + |w|] == w
  }

  /** JavaScript's `s.includes(w)`, by scanning the start positions left to right. */
  function Includes(s: string, w: string): bool
    decreases |s|
  {
    if |s| < |w| then false
    else s[..|w|] == w || Includes(s[1..], w)
  }

  /** The scan finds `w` exactly when it occurs somewhere in `s`. */
  lemma {:induction false} IncludesIffOccurs(s: string, w: string)
    ensures Includes(s, w) <==> exists i :: OccursAt(s, w, i)
    decreases |s|
  {
    if |s| < |w| {
    } else if s[..|w|] == w {
      assert OccursAt(s, w, 0);
    } else {
      IncludesIffOccurs(s[1..], w);
      if Includes(s[1..], w) {
        var i :| OccursAt(s[1..], w, i);
        assert s[1..][i..i + |w|] == s[i + 1..i + 1 + |w|];
        assert OccursAt(s, w, i + 1);
      }
      if exists i :: OccursAt(s, w, i) {
        var i :| OccursAt(s, w, i);
        assert i != 0;
        assert s[1..][i - 1..i - 1 + |w|] == s[i..i + |w|];
        assert OccursAt(s[1..], w, i - 1);
      }
    }
  }

  /** A string in which some character of `w` never appears does not contain `w`. */
  lemma MissingCharacterExcludes(s: string, w: string, k: nat)
    requires k < |w| && w[k] !in s
    ensures !Includes(s, w)
  {
    IncludesIffOccurs(s, w);
  }

  /** `getInitialClue()`: the parchment does not yet name the temple. */
  function InitialClueText(): (r: string)
    ensures forall i :: !OccursAt(r, TempleWord, i)
  {
    assert TempleWord[1] !in InitialClue;
    MissingCharacterExcludes(InitialClue, TempleWord, 1);
    IncludesIffOccurs(InitialClue, TempleWord);
    InitialClue
  }

  /** `decodeAncientScript(ancientText)`: the input is not looked at, and the
      answer always names the temple, so it is a clue `searchTemple` accepts. */
  function DecodeAncientScript(ancientText: string): (r: string)
    ensures OccursAt(r, TempleWord, 13)
  {
    assert DecodedClue[13] == TempleWord[0] && DecodedClue[14] == TempleWord[1];
    assert DecodedClue[13..15] == [DecodedClue[13], DecodedClue[14]];
    DecodedClue
  }

  /** `searchTemple(clue)`: resolves with the chest text exactly when the clue
      contains the temple word, and rejects with ClueNotUnderstood otherwise. */
  function SearchTemple(clue: string): (r: Outcome<string>)
    ensures r.Resolved? <==> exists i :: OccursAt(clue, TempleWord, i)
    ensures r.Resolved? ==> r.value == ChestFound
    ensures !r.Resolved? ==> r == Rejected(ClueNotUnderstood)
  {
    IncludesIffOccurs(clue, TempleWord);
    if Includes(clue, TempleWord) then Resolved(ChestFound)
    else Rejected(ClueNotUnderstood)
  }

  /** Played in order, the raw parchment is rejected and its decoding accepted. */
  lemma NarrativeOrder(anyText: string)
    ensures SearchTemple(InitialClueText()).Rejected?
    ensures SearchTemple(DecodeAncientScript(anyText)) == Resolved(ChestFound)
  {
  }

  /** `Math.floor(Math.random() * treasures.length)` for a draw `random` in [0, 1). */
  function TreasureIndex(random: real): (i: int)
    requires 0.0 <= random < 1.0
    ensures 0 <= i < |Treasures|
  {
    (random * 3.0).Floor
  }

  /** `openTreasureBox()`: one of the three rewards followed by the completion suffix. */
  function OpenTreasureBox(random: real): (r: string)
    requires 0.0 <= random < 1.0
    ensures exists i :: 0 <= i < |Treasures| && r == Treasures[i] + CompletionSuffix
  {
    Treasures[TreasureIndex(random)] + CompletionSuffix
  }

  /** Every reward can be drawn: the draw k/3 selects reward k. */
  lemma EveryTreasureReachable(k: nat)
    requires k < |Treasures|
    ensures OpenTreasureBox(k as real / 3.0) == Treasures[k] + CompletionSuffix
  {
    assert TreasureIndex(k as real / 3.0) == k;
  }

  /** The three outcomes of `openTreasureBox` are pairwise different, so there are exactly three. */
  lemma TreasureOutcomesDistinct(i: nat, j: nat)
    requires i < |Treasures| && j < |Treasures| && i != j
    ensures Treasures[i] + CompletionSuffix != Treasures[j] + CompletionSuffix
  {
    assert Treasures[0][0] == '恭' && Treasures[1][0] == '太' && Treasures[2][0] == '惊';
    assert (Treasures[i] + CompletionSuffix)[0] == Treasures[i][0];
    assert (Treasures[j] + CompletionSuffix)[0] == Treasures[j][0];
  }
}
