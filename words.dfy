/**
 * The word catalogue: three numbered units, each with a "write" list (practised in both
 * modes) followed by a "read-only" list (practised only in Read mode), the per-unit unions
 * and the de-duplication by id that every union goes through.
 */
module Words {
  import opened Seqs

  /** Every catalogue id is a non-empty string, so JavaScript's truthiness test on an id is a null test. */
  type WordId = s: string | s != "" witness "?"

  datatype Word = Word(id: WordId, hanzi: string, pinyin: string, english: string)

  type UnitId = u: int | 1 <= u <= 3 witness 1

  const AllUnits: seq<UnitId> := [1, 2, 3]

  const Unit1WriteWords: seq<Word> := [
    Word("yi-one", "一", "yī", "one"),
    Word("er-two", "二", "èr", "two"),
    Word("san-three", "三", "sān", "three"),
    Word("si-four", "四", "sì", "four"),
    Word("wu-five", "五", "wǔ", "five"),
    Word("liu-six", "六", "liù", "six"),
    Word("qi-seven", "七", "qī", "seven"),
    Word("ba-eight", "八", "bā", "eight"),
    Word("jiu-nine", "九", "jiǔ", "nine"),
    Word("shi-ten", "十", "shí", "ten"),
    Word("baba-dad", "爸爸", "bàba", "dad"),
    Word("mama-mom", "妈妈", "māma", "mom"),
    Word("ren-person", "人", "rén", "person"),
    Word("ri-sun", "日", "rì", "sun"),
    Word("yue-moon", "月", "yuè", "moon"),
    Word("ban-half", "半", "bàn", "half")
  ]

  const Unit1ReadOnlyWords: seq<Word> := [
    Word("xia-down", "下", "xià", "down"),
    Word("da-big", "大", "dà", "big"),
    Word("xiao-small", "小", "xiǎo", "small"),
    Word("gege-older-brother", "哥哥", "gēge", "older brother"),
    Word("jiejie-older-sister", "姐姐", "jiějie", "older sister"),
    Word("didi-younger-brother", "弟弟", "dìdi", "younger brother"),
    Word("meimei-younger-sister", "妹妹", "mèimei", "younger sister"),
    Word("yeye-grandpa-dad", "爷爷", "yéye", "grandpa (dad's side)"),
    Word("nainai-grandma-dad", "奶奶", "nǎinai", "grandma (dad's side)"),
    Word("waigong-grandpa-mom", "外公", "wàigōng", "grandpa (mom's side)"),
    Word("waipo-grandma-mom", "外婆", "wàipó", "grandma (mom's side)")
  ]

  const Unit2WriteWords: seq<Word> := [
    Word("xi-west", "西", "xī", "west"),
    Word("jia-home", "家", "jiā", "home"),
    Word("wo-i", "我", "wǒ", "I"),
    Word("de-of", "的", "de", "of / 's"),
    Word("nv-woman", "女", "nǚ", "woman"),
    Word("kou-mouth", "口", "kǒu", "mouth"),
    Word("qu-go", "去", "qù", "go"),
    Word("zi-child", "子", "zǐ", "child (depends on context)"),
    Word("zhi-only", "只", "zhǐ", "only / measure word"),
    Word("chang-long", "长", "cháng", "long"),
    Word("fang-square", "方", "fāng", "square"),
    Word("zai-at", "在", "zài", "at"),
    Word("le-already", "了", "le", "already")
  ]

  const Unit2ReadOnlyWords: seq<Word> := [
    Word("dong-east", "东", "dōng", "east"),
    Word("nan-south", "南", "nán", "south"),
    Word("bei-north", "北", "běi", "north"),
    Word("bao-treasure", "宝", "bǎo", "treasure"),
    Word("shui-water", "水", "shuǐ", "water"),
    Word("zuo-left", "左", "zuǒ", "left"),
    Word("you-right", "右", "yòu", "right"),
    Word("niao-bird", "鸟", "niǎo", "bird"),
    Word("shou-hand", "手", "shǒu", "hand"),
    Word("tian-sky", "天", "tiān", "sky"),
    Word("xing-shape", "形", "xíng", "shape"),
    Word("fang-house", "房", "fáng", "house"),
    Word("wen-writing", "文", "wén", "writing (depends on context)"),
    Word("dong-winter", "冬", "dōng", "winter")
  ]

  const Unit3WriteWords: seq<Word> := [
    Word("tu-soil", "土", "tǔ", "soil"),
    Word("ge-unit", "个", "gè", "unit / measure word"),
    Word("gong-public", "公", "gōng", "public"),
    Word("la-trash", "垃", "lā", "trash (la)"),
    Word("ji-trash", "圾", "jī", "trash (ji)"),
    Word("xue-study", "学", "xué", "study"),
    Word("ma-horse", "马", "mǎ", "horse"),
    Word("nian-year", "年", "nián", "year"),
    Word("fu-fortune", "福", "fú", "good fortune"),
    Word("hui-return", "回", "huí", "return"),
    Word("ni-you", "你", "nǐ", "you"),
    Word("ke-can", "可", "kě", "can / but")
  ]

  const Unit3ReadOnlyWords: seq<Word> := [
    Word("li-inside", "里", "lǐ", "inside"),
    Word("sheng-life", "生", "shēng", "life / born"),
    Word("hong-red", "红", "hóng", "red"),
    Word("hei-black", "黑", "hēi", "black"),
    Word("shou-receive", "收", "shōu", "receive"),
    Word("lv-green", "绿", "lǜ", "green"),
    Word("yu-fish", "鱼", "yú", "fish"),
    Word("zhu-wish", "祝", "zhù", "wish / congratulate")
  ]

  /** A unit's read list: its write list followed by its read-only list. */
  function ReadWordsByUnit(unit: UnitId): (r: seq<Word>)
    ensures WriteWordsByUnit(unit) <= r
  {
    if unit == 1 then Unit1WriteWords + Unit1ReadOnlyWords
    else if unit == 2 then Unit2WriteWords + Unit2ReadOnlyWords
    else Unit3WriteWords + Unit3ReadOnlyWords
  }

  /** A unit's write list; none of them is empty. */
  function WriteWordsByUnit(unit: UnitId): (r: seq<Word>)
    ensures |r| > 0
  {
    if unit == 1 then Unit1WriteWords
    else if unit == 2 then Unit2WriteWords
    else Unit3WriteWords
  }

  /** `words.map((word) => word.id)` */
  function Ids(words: seq<Word>): seq<WordId> {
    seq(|words|, i requires 0 <= i < |words| => words[i].id)
  }

  /** The ids that occur in `words`. */
  function IdSet(words: seq<Word>): set<WordId> {
    set w | w in words :: w.id
  }

  predicate DistinctIds(words: seq<Word>) {
    Distinct(Ids(words))
  }

  lemma IdSetConcat(a: seq<Word>, b: seq<Word>)
    ensures IdSet(a + b) == IdSet(a) + IdSet(b)
  {
    assert forall w :: w in a + b <==> w in a || w in b;
  }

  /** A word list has at most as many distinct ids as it has entries. */
  lemma {:induction false} IdSetSize(words: seq<Word>)
    ensures |IdSet(words)| <= |words|
  {
    if words != [] {
      IdSetSize(words[1..]);
      IdSetCons(words);
      AddOneSize(IdSet(words[1..]), words[0].id);
    }
  }

  lemma IdSetCons(words: seq<Word>)
    requires words != []
    ensures IdSet(words) == IdSet(words[1..]) + {words[0].id}
  {
    assert forall w :: w in words <==> w == words[0] || w in words[1..];
  }

  /**
   * `wordsById[id]` over `Object.fromEntries(words.map((word) => [word.id, word]))`: a later
   * entry overwrites an earlier one, so it is the last word with that id, or nothing.
   */
  function WordById(words: seq<Word>, id: WordId): (r: Option<Word>)
    ensures r.Some? <==> id in IdSet(words)
    ensures r.Some? ==> r.value in words && r.value.id == id
  {
    if words == [] then None
    else
      var prefix := words[..|words| - 1];
      assert words == prefix + [words[|words| - 1]];
      IdSetConcat(prefix, [words[|words| - 1]]);
      if words[|words| - 1].id == id then Some(words[|words| - 1])
      else WordById(prefix, id)
  }

  /**
   * The position of the first word of `words` whose id is `id`.
   */
  function FirstIndex(words: seq<Word>, id: WordId): (i: nat)
    requires id in IdSet(words)
    ensures i < |words| && words[i].id == id
    ensures forall k :: 0 <= k < i ==> words[k].id != id
  {
    var prefix := words[..|words| - 1];
    assert words == prefix + [words[|words| - 1]];
    IdSetConcat(prefix, [words[|words| - 1]]);
    if id in IdSet(prefix) then FirstIndex(prefix, id)
    else
      assert forall k :: 0 <= k < |prefix| ==> prefix[k] in prefix;
      |words| - 1
  }

  /**
   * What `uniqueById` returns: the words in input order, dropping every word whose id
   * an earlier word already had.
   */
  function UniqueWords(words: seq<Word>): seq<Word> {
    if words == [] then []
    else
      var kept := UniqueWords(words[..|words| - 1]);
      var word := words[|words| - 1];
      if word.id in IdSet(kept) then kept else kept + [word]
  }

  /** `uniqueById`: a loop over the words with a set of the ids seen so far. */
  method UniqueById(words: seq<Word>) returns (out: seq<Word>)
    ensures out == UniqueWords(words)
    ensures DistinctIds(out) && IdSet(out) == IdSet(words)
  {
    var seen: set<WordId> := {};
    out := [];
    for i := 0 to |words|
      invariant out == UniqueWords(words[..i])
      invariant seen == IdSet(out)
    {
      var word := words[i];
      assert words[..i + 1][..i] == words[..i];
      if word.id in seen {
        continue;
      }
      seen := seen + {word.id};
      IdSetConcat(out, [word]);
      out := out + [word];
    }
    assert words[..|words|] == words;
    UniqueIds(words);
  }

  /** The result of `uniqueById` has pairwise distinct ids, and exactly the ids of its input. */
  lemma {:induction false} UniqueIds(words: seq<Word>)
    ensures IdSet(UniqueWords(words)) == IdSet(words)
    ensures DistinctIds(UniqueWords(words))
  {
    if words != [] {
      var prefix := words[..|words| - 1];
      var word := words[|words| - 1];
      var kept := UniqueWords(prefix);
      UniqueIds(prefix);
      assert words == prefix + [word];
      IdSetConcat(prefix, [word]);
      IdSetConcat(kept, [word]);
      if word.id !in IdSet(kept) {
        var r := kept + [word];
        forall i, j | 0 <= i < j < |r| ensures Ids(r)[i] != Ids(r)[j] {
          if j < |kept| {
            assert Ids(kept)[i] != Ids(kept)[j];
          } else {
            assert kept[i] in kept;
          }
        }
      }
    }
  }

  /** The result of `uniqueById` is its input with some words deleted, in input order. */
  lemma {:induction false} UniqueIsSubsequence(words: seq<Word>)
    ensures IsSubsequence(UniqueWords(words), words)
  {
    if words != [] {
      var prefix := words[..|words| - 1];
      var word := words[|words| - 1];
      var kept := UniqueWords(prefix);
      UniqueIsSubsequence(prefix);
      if word.id !in IdSet(kept) {
        assert (kept + [word])[..|kept|] == kept;
      }
    }
  }

  /**
   * A word survives `uniqueById` exactly when it is the first word of the input with its
   * id: no id is lost, and the occurrence kept is always the first.
   */
  lemma {:induction false} UniqueKeepsFirst(words: seq<Word>)
    ensures forall w :: w in UniqueWords(words) <==> w in words && words[FirstIndex(words, w.id)] == w
  {
    if words != [] {
      var prefix := words[..|words| - 1];
      var word := words[|words| - 1];
      var kept := UniqueWords(prefix);
      UniqueKeepsFirst(prefix);
      UniqueIds(prefix);
      assert words == prefix + [word];
      IdSetConcat(prefix, [word]);
      forall w | w in words
        ensures w in UniqueWords(words) <==> words[FirstIndex(words, w.id)] == w
      {
        if w.id in IdSet(prefix) {
          assert FirstIndex(words, w.id) == FirstIndex(prefix, w.id);
          assert words[FirstIndex(words, w.id)] == prefix[FirstIndex(prefix, w.id)];
          if w in prefix {
          } else {
            assert w == word;
          }
        } else {
          assert FirstIndex(words, w.id) == |words| - 1;
          assert w !in prefix;
        }
      }
    }
  }

  /** On input whose ids are already distinct, `uniqueById` changes nothing. */
  lemma {:induction false} UniqueOfDistinct(words: seq<Word>)
    requires DistinctIds(words)
    ensures UniqueWords(words) == words
  {
    if words != [] {
      var prefix := words[..|words| - 1];
      var word := words[|words| - 1];
      assert DistinctIds(prefix) by {
        assert forall i :: 0 <= i < |prefix| ==> Ids(prefix)[i] == Ids(words)[i];
      }
      UniqueOfDistinct(prefix);
      assert word.id !in IdSet(prefix) by {
        forall w | w in prefix ensures w.id != word.id {
          var i :| 0 <= i < |prefix| && prefix[i] == w;
          assert Ids(words)[i] != Ids(words)[|words| - 1];
        }
      }
      assert words == prefix + [word];
    }
  }

  /** `uniqueById` is idempotent. */
  lemma UniqueIdempotent(words: seq<Word>)
    ensures UniqueWords(UniqueWords(words)) == UniqueWords(words)
  {
    UniqueIds(words);
    UniqueOfDistinct(UniqueWords(words));
  }

  /** `units.flatMap((unit) => lists[unit])` */
  function FlatMap(units: seq<UnitId>, lists: UnitId -> seq<Word>): seq<Word> {
    if units == [] then [] else lists(units[0]) + FlatMap(units[1..], lists)
  }

  /** The ids of the concatenated lists are those of the selected units' lists. */
  lemma {:induction false} FlatMapIds(units: seq<UnitId>, lists: UnitId -> seq<Word>)
    ensures forall id :: id in IdSet(FlatMap(units, lists)) <==> exists u :: u in units && id in IdSet(lists(u))
  {
    if units != [] {
      FlatMapIds(units[1..], lists);
      IdSetConcat(lists(units[0]), FlatMap(units[1..], lists));
      assert forall u :: u in units <==> u == units[0] || u in units[1..];
    }
  }

  /**
   * The lists of the selected units, concatenated and de-duplicated by id: in their order,
   * with every id of the selected units' lists once.
   */
  function WordsForUnits(units: seq<UnitId>, lists: UnitId -> seq<Word>): (r: seq<Word>)
    ensures DistinctIds(r) && IsSubsequence(r, FlatMap(units, lists))
    ensures forall id :: id in IdSet(r) <==> exists u :: u in units && id in IdSet(lists(u))
  {
    var flat := FlatMap(units, lists);
    FlatMapIds(units, lists);
    UniqueIds(flat);
    UniqueIsSubsequence(flat);
    UniqueWords(flat)
  }

  /** `getReadWordsForUnits`: each id of the selected units' read lists, once. */
  function ReadWordsForUnits(units: seq<UnitId>): (r: seq<Word>)
    ensures DistinctIds(r)
    ensures forall id :: id in IdSet(r) <==> exists u :: u in units && id in IdSet(ReadWordsByUnit(u))
  {
    WordsForUnits(units, ReadWordsByUnit)
  }

  /** `getWriteWordsForUnits`: each id of the selected units' write lists, once. */
  function WriteWordsForUnits(units: seq<UnitId>): (r: seq<Word>)
    ensures DistinctIds(r)
    ensures forall id :: id in IdSet(r) <==> exists u :: u in units && id in IdSet(WriteWordsByUnit(u))
  {
    WordsForUnits(units, WriteWordsByUnit)
  }

  /** `WORDS`: the de-duplicated read lists of units 1, 2 and 3. */
  const AllWords: seq<Word> := UniqueWords(ReadWordsByUnit(1) + ReadWordsByUnit(2) + ReadWordsByUnit(3))

  lemma {:induction false} WriteFlatWithinRead(units: seq<UnitId>)
    ensures IdSet(FlatMap(units, WriteWordsByUnit)) <= IdSet(FlatMap(units, ReadWordsByUnit))
  {
    if units != [] {
      WriteFlatWithinRead(units[1..]);
      var write := WriteWordsByUnit(units[0]);
      var read := ReadWordsByUnit(units[0]);
      IdSetConcat(write, FlatMap(units[1..], WriteWordsByUnit));
      IdSetConcat(read, FlatMap(units[1..], ReadWordsByUnit));
      assert read == write + read[|write|..];
      IdSetConcat(write, read[|write|..]);
    }
  }

  /** Every word practised in Write mode for a unit selection is also practised in Read mode for it. */
  lemma WriteIdsWithinRead(units: seq<UnitId>)
    ensures IdSet(WriteWordsForUnits(units)) <= IdSet(ReadWordsForUnits(units))
  {
    WriteFlatWithinRead(units);
    UniqueIds(FlatMap(units, WriteWordsByUnit));
    UniqueIds(FlatMap(units, ReadWordsByUnit));
  }

  /** A non-empty unit selection whose lists are non-empty gives a non-empty set of words. */
  lemma WordsForUnitsNonEmpty(units: seq<UnitId>, lists: UnitId -> seq<Word>)
    requires |units| > 0 && forall u :: |lists(u)| > 0
    ensures |WordsForUnits(units, lists)| > 0
  {
    var flat := FlatMap(units, lists);
    var first := lists(units[0]);
    assert first[0] in flat;
    UniqueIds(flat);
    assert first[0].id in IdSet(UniqueWords(flat));
  }

  /** Any non-empty unit selection gives a non-empty set of Write-mode words. */
  lemma WriteWordsNonEmpty(units: seq<UnitId>)
    requires |units| > 0
    ensures |WriteWordsForUnits(units)| > 0
  {
    WordsForUnitsNonEmpty(units, WriteWordsByUnit);
  }

  /**
   * `WORDS` is the read union of all three units; it holds every word of their read lists
   * exactly once by id, and at least three words.
   */
  lemma AllWordsCatalogue()
    ensures AllWords == ReadWordsForUnits(AllUnits)
    ensures DistinctIds(AllWords)
    ensures IdSet(AllWords) == IdSet(ReadWordsByUnit(1) + ReadWordsByUnit(2) + ReadWordsByUnit(3))
    ensures |AllWords| >= 3
  {
    AllWordsReadUnion();
    var all := ReadWordsByUnit(1) + ReadWordsByUnit(2) + ReadWordsByUnit(3);
    FirstUnitIds();
    IdSetConcat(ReadWordsByUnit(1), ReadWordsByUnit(2) + ReadWordsByUnit(3));
    FirstIdsCount(all);
    UniqueAtLeastThree(all);
  }

  /** A list with at least three distinct ids keeps at least three words through `uniqueById`. */
  lemma UniqueAtLeastThree(words: seq<Word>)
    requires |IdSet(words)| >= 3
    ensures DistinctIds(UniqueWords(words)) && IdSet(UniqueWords(words)) == IdSet(words)
    ensures |UniqueWords(words)| >= 3
  {
    UniqueIds(words);
    IdSetSize(UniqueWords(words));
  }

  /** `WORDS` is `getReadWordsForUnits(ALL_UNITS)`. */
  lemma AllWordsReadUnion()
    ensures AllWords == ReadWordsForUnits(AllUnits)
  {
    FlatMapAllUnits(ReadWordsByUnit);
  }

  lemma FlatMapAllUnits(lists: UnitId -> seq<Word>)
    ensures FlatMap(AllUnits, lists) == lists(1) + lists(2) + lists(3)
  {
    assert AllUnits[1..] == [2, 3] && AllUnits[1..][1..] == [3] && AllUnits[1..][1..][1..] == [];
  }

  lemma FirstUnitIds()
    ensures {"yi-one", "er-two", "san-three"} <= IdSet(ReadWordsByUnit(1))
  {
    var u := Unit1WriteWords;
    assert u[0].id == "yi-one" && u[1].id == "er-two" && u[2].id == "san-three";
    InIdSet(u, 0);
    InIdSet(u, 1);
    InIdSet(u, 2);
    IdSetConcat(u, Unit1ReadOnlyWords);
  }

  /** A list holding the first three words' ids has at least three distinct ids. */
  lemma FirstIdsCount(words: seq<Word>)
    requires {"yi-one", "er-two", "san-three"} <= IdSet(words)
    ensures |IdSet(words)| >= 3
  {
    var three: set<WordId> := {"yi-one", "er-two", "san-three"};
    SubsetSize(three, IdSet(words));
  }

  lemma InIdSet(words: seq<Word>, i: nat)
    requires i < |words|
    ensures words[i].id in IdSet(words)
  {
    assert words[i] in words;
  }

  /** Adding one element grows a set by at most one. */
  lemma AddOneSize<T>(s: set<T>, x: T)
    ensures |s + {x}| <= |s| + 1
  {
    if x in s {
      assert s + {x} == s;
    }
  }

  lemma SubsetSize<T>(a: set<T>, b: set<T>)
    requires a <= b
    ensures |a| <= |b|
  {
    assert b == a + (b - a);
  }
}
