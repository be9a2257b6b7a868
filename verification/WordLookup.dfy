/** What the system and the user dictionary together answer, and how the matches of the lattice remember where they are
    in the system dictionary. */
module WordLookup {
  import opened Bytes
  import opened LemmaTrie
  import opened TrieWalk
  import opened LatticeRow
  import Lattice
  import opened SystemDictionary

  const MAX_LMA_PSB_ITEMS: nat := 1450
  const MAX_LPI_CACHE_PER_ID: nat := 15

  /** The answer of the user dictionary: some items, and whether a lemma goes on from here. */
  datatype UserAnswer = UserAnswer(items: seq<LmaItem>, more: bool)

  /** What lies outside: the spelling parser, the user dictionary as it answers while a sentence is decoded, and
      `qsort`. */
  datatype Givens = Givens(
    parse: seq<u8> -> (u16, bool), half: u16 -> bool, letter: u8 -> bool,
    user: (seq<u16>, nat) -> UserAnswer, order: seq<LmaItem> -> seq<LmaItem>)
  {
    ghost predicate Sorts() {
      forall s: seq<LmaItem> :: SortedItems(order(s)) && multiset(order(s)) == multiset(s)
    }
  }

  /** The items of the system dictionary as the lattice takes them. */
  function Shown(s: seq<LpiItem>): (r: seq<LmaItem>)
    ensures |r| == |s| && forall i :: 0 <= i < |s| ==> r[i] == LmaItem(s[i].id, s[i].psb)
  {
    seq(|s|, i requires 0 <= i < |s| => LmaItem(s[i].id, s[i].psb))
  }

  /** Everything the decoder looks words up in. */
  datatype Words = Words(given: Givens, spl: HalfIds, trie: seq<Trie>, uniPsb: nat -> u16)
  {
    /** The sort sorts, and every spelling id that the parser gives stands for full ids of the dictionary. */
    ghost predicate Valid() {
      && given.Sorts()
      && forall s: seq<u8> :: given.parse(s).0 > 0 ==> Speaks(given.parse(s).0)
    }

    ghost predicate Speaks(id: u16) {
      FullRange(trie, spl.expand(id)) && spl.expand(id).num < 0x100
    }

    /** Some lemma of the system dictionary begins like this. */
    predicate SystemMore(ids: seq<u16>) {
      ids != [] && Reach(trie, spl.Ranges(ids)) != []
    }

    /** The lemmas of the system dictionary, in its order, as far as the buffer goes. */
    function System(ids: seq<u16>): (s: seq<LmaItem>) {
      if ids == [] then [] else
        Shown(Take(Lpis(HomosOf(Answering(spl, ids, Reach(trie, spl.Ranges(ids)))), |ids|, uniPsb), MAX_LMA_PSB_ITEMS))
    }

    /** What the user dictionary answers when it is asked. */
    function Answer(ids: seq<u16>): (a: UserAnswer) {
      given.user(ids, MAX_LMA_PSB_ITEMS - Min(|System(ids)|, MAX_LMA_PSB_ITEMS))
    }

    /** The user dictionary is asked for the first spelling, and for more only when it has gone on so far. */
    predicate UserMore(ids: seq<u16>)
      decreases |ids|
    {
      && ids != [] && (|ids| > 1 ==> UserMore(ids[..|ids| - 1]))
      && (Answer(ids).items != [] || Answer(ids).more)
    }

    function User(ids: seq<u16>): (s: seq<LmaItem>) {
      if UserMore(ids) then Answer(ids).items else []
    }

    /** Of a single half id only so many items as its cache holds. */
    function Kept(ids: seq<u16>, all: seq<LmaItem>): (s: seq<LmaItem>) {
      if |ids| == 1 && given.half(ids[0]) then Take(all, MAX_LPI_CACHE_PER_ID) else all
    }

    /** All items, sorted. */
    function Items(ids: seq<u16>): (s: seq<LmaItem>) {
      Kept(ids, given.order(System(ids) + User(ids)))
    }

    /** The items are those of both dictionaries, in order; of a single half id only the first fifteen. */
    lemma ItemsAre(ids: seq<u16>)
      requires given.Sorts()
      ensures SortedItems(given.order(System(ids) + User(ids)))
        && multiset(given.order(System(ids) + User(ids))) == multiset(System(ids)) + multiset(User(ids))
      ensures !(|ids| == 1 && given.half(ids[0])) ==> Items(ids) == given.order(System(ids) + User(ids))
      ensures |ids| == 1 && given.half(ids[0]) ==>
                Items(ids) <= given.order(System(ids) + User(ids))
                && |Items(ids)| == if |System(ids) + User(ids)| < 15 then |System(ids) + User(ids)| else 15
    {
      hide System, User;
      var all := System(ids) + User(ids);
      assert |given.order(all)| == |multiset(given.order(all))| == |multiset(all)| == |all|;
    }

    lemma SystemShort(ids: seq<u16>)
      ensures |System(ids)| <= MAX_LMA_PSB_ITEMS
    {
      hide Reach, Answering, HomosOf;
    }

    /** The lexicon of the lattice. */
    function Lex(): (lex: Lattice.Lexicon) {
      Lattice.Lexicon(given.parse, ids => Items(ids), given.half, given.letter)
    }

    lemma LexValid()
      requires given.Sorts()
      ensures Lex().Valid()
    {
      forall ids: seq<u16> ensures SortedItems(Lex().items(ids)) {
        assert SortedItems(given.order(System(ids) + User(ids)));
      }
    }

    /** The system dictionary's part, but for the one-letter Yunmus: the lemmas of the dictionary with these spelling
        ids, full or half, in its order. */
    lemma SystemIsFilter(ids: seq<u16>)
      requires ids != [] && !(|ids| == 1 && spl.yunmu(ids[0]))
      ensures System(ids) == Shown(Take(Lpis(Filter(Listed(trie), spl.Ranges(ids)), |ids|, uniPsb), MAX_LMA_PSB_ITEMS))
    {
      ReachFilters(trie, spl.Ranges(ids));
    }

    /** Where neither dictionary goes on there are no items. */
    lemma NoItemsBehind(ids: seq<u16>)
      requires ids != [] && !SystemMore(ids) && !UserMore(ids) && given.Sorts()
      ensures Items(ids) == []
    {
      assert multiset(given.order([])) == multiset([]);
      assert System(ids) == [] && User(ids) == [];
      assert System(ids) + User(ids) == [];
    }

    /** One spelling more. */
    lemma OneMore(front: seq<u16>, x: u16)
      ensures spl.Ranges(front + [x]) == spl.Ranges(front) + [spl.expand(x)]
      ensures front != [] && !SystemMore(front) ==> !SystemMore(front + [x]) && System(front + [x]) == []
      ensures UserMore(front + [x]) <==>
                (front != [] ==> UserMore(front)) && (Answer(front + [x]).items != [] || Answer(front + [x]).more)
    {
      var q := spl.Ranges(front);
      assert spl.Ranges(front + [x]) == q + [spl.expand(x)];
      assert (front + [x])[..|front|] == front;
      if front != [] && !SystemMore(front) {
        ReachSnoc(trie, q, spl.expand(x), 0);
        assert Reach(trie, q + [spl.expand(x)]) == [];
      }
    }
  }
}
