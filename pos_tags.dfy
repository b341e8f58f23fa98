/** `get_wordnet_pos`: the map from a Penn Treebank tag to the category the
    WordNet lemmatizer takes. */
module PosTags {

  /** The four lemmatizer categories (`wordnet.ADJ`, `wordnet.NOUN`,
      `wordnet.VERB`, `wordnet.ADV`). */
  datatype Pos = Adj | Noun | Verb | Adv

  /** Only the first character of the tag is looked at: `J`, `N`, `V` and
      `R` select adjective, noun, verb and adverb, anything else falls back
      to noun.  An empty tag makes `treebank_tag[0]` raise, so callers must
      pass a non-empty one (the tagger always does). */
  function WordnetPos(tag: string): (p: Pos)
    requires |tag| > 0
    ensures p == Adj <==> tag[0] == 'J'
    ensures p == Verb <==> tag[0] == 'V'
    ensures p == Adv <==> tag[0] == 'R'
    ensures p == Noun <==> tag[0] !in "JVR"
  {
    match tag[0]
    case 'J' => Adj
    case 'N' => Noun
    case 'V' => Verb
    case 'R' => Adv
    case _ => Noun
  }

  /** Every category is reached, by the tag that names it. */
  lemma WordnetPosOnto(p: Pos)
    ensures exists tag: string :: |tag| > 0 && WordnetPos(tag) == p
  {
    var tag := match p case Adj => "J" case Noun => "N" case Verb => "V" case Adv => "R";
    assert WordnetPos(tag) == p;
  }
}
