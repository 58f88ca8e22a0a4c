/** Post-processing of the NRC emotion lexicon's analysis of a text
    (modules/nrc_tool.py): the prioritised affect dictionary, the frequency
    table over the eight prototypical emotions, and its dominant emotions.

    The lexicon itself is not modelled: every operation takes `raw`, the
    word-to-emotions dictionary the lexicon returns for a text, as an ordered
    sequence of entries (a Python dict keeps insertion order). */
module NrcTool {
  import opened Seqs

  type Emotion = string

  /** One item of the affect dictionary: a word of the text and the emotion
      tags the lexicon gives it, in lexicon order. */
  datatype Entry = Entry(word: string, emotions: seq<Emotion>)

  /** The elementary sentiments, in the order in which they are removed. */
  const Sentiments: seq<Emotion> := ["positive", "negative"]

  /** The eight prototypical emotions, in the key order of the table. */
  const Standard: seq<Emotion> :=
    ["anger", "disgust", "fear", "sadness", "anticipation", "joy", "surprise", "trust"]

  function NotTag(tag: Emotion): Emotion -> bool {
    (v: Emotion) => v != tag
  }

  function NotIn(tags: seq<Emotion>): Emotion -> bool {
    (v: Emotion) => v !in tags
  }

  predicate HasEmotion(e: Entry) {
    e.emotions != []
  }

  function HasCount(n: nat): Entry -> bool {
    (e: Entry) => |e.emotions| == n
  }

  // ---------------------------------------------------------------------
  // nrc_affect_dict
  // ---------------------------------------------------------------------

  /** One pass of the removal loop: `sentiment` leaves every emotion list,
      the words and their order stay. */
  function RemoveSentiment(d: seq<Entry>, sentiment: Emotion): seq<Entry> {
    seq(|d|, i requires 0 <= i < |d| => Entry(d[i].word, Filter(d[i].emotions, NotTag(sentiment))))
  }

  /** The removal loop over the given sentiments, one pass each. */
  function RemoveSentiments(d: seq<Entry>, sentiments: seq<Emotion>): seq<Entry>
    decreases |sentiments|
  {
    if sentiments == [] then d
    else RemoveSentiments(RemoveSentiment(d, sentiments[0]), sentiments[1..])
  }

  /** An emotion list with the elementary sentiments removed. */
  function Unsentimental(emotions: seq<Emotion>): (r: seq<Emotion>)
    ensures "positive" !in r && "negative" !in r
    ensures Subseq(r, emotions)
    ensures forall v :: v !in Sentiments ==> multiset(r)[v] == multiset(emotions)[v]
  {
    FilterKeepsOrder(emotions, NotIn(Sentiments));
    Filter(emotions, NotIn(Sentiments))
  }

  /** The entry as it leaves the removal loop. */
  function StripEntry(e: Entry): Entry {
    Entry(e.word, Unsentimental(e.emotions))
  }

  /** The affect dictionary before sorting: sentiments removed, then every
      word whose list became empty dropped. */
  function Stripped(raw: seq<Entry>): seq<Entry> {
    Filter(RemoveSentiments(raw, Sentiments), HasEmotion)
  }

  /** Inserts `e` before the first entry with no more emotions than it has. */
  function Insert(e: Entry, s: seq<Entry>): seq<Entry> {
    if s == [] then [e]
    else if |e.emotions| >= |s[0].emotions| then [e] + s
    else [s[0]] + Insert(e, s[1..])
  }

  /** Stable sort by number of emotions, largest first (Python's `sorted`
      with `reverse=True` keeps equal keys in their input order). */
  function SortByCount(s: seq<Entry>): seq<Entry> {
    if s == [] then [] else Insert(s[0], SortByCount(s[1..]))
  }

  predicate SortedByCount(s: seq<Entry>) {
    forall i, j :: 0 <= i < j < |s| ==> |s[i].emotions| >= |s[j].emotions|
  }

  /** The entries with exactly `n` emotions, in their order. */
  function WithCount(s: seq<Entry>, n: nat): seq<Entry> {
    Filter(s, HasCount(n))
  }

  /** nrc_affect_dict: the words of the text ordered by how many emotions
      they carry. */
  function AffectDict(raw: seq<Entry>): seq<Entry> {
    SortByCount(Stripped(raw))
  }

  lemma {:induction false} RemoveSentimentsPerEntry(d: seq<Entry>, sentiments: seq<Emotion>)
    ensures |RemoveSentiments(d, sentiments)| == |d|
    ensures forall i :: 0 <= i < |d| ==>
              RemoveSentiments(d, sentiments)[i] == Entry(d[i].word, Filter(d[i].emotions, NotIn(sentiments)))
    decreases |sentiments|
  {
    if sentiments == [] {
      forall i | 0 <= i < |d| ensures d[i] == Entry(d[i].word, Filter(d[i].emotions, NotIn(sentiments))) {
        FilterKeepsAll(d[i].emotions, NotIn(sentiments));
      }
    } else {
      var tag, rest := sentiments[0], sentiments[1..];
      var d' := RemoveSentiment(d, tag);
      RemoveSentimentsPerEntry(d', rest);
      forall i | 0 <= i < |d|
        ensures RemoveSentiments(d, sentiments)[i] == Entry(d[i].word, Filter(d[i].emotions, NotIn(sentiments)))
      {
        assert sentiments == [tag] + rest;
        FilterFilter(d[i].emotions, NotTag(tag), NotIn(rest), NotIn(sentiments));
      }
    }
  }

  /** The entries that survive removal are exactly the stripped input
      entries that still have an emotion, in input order. */
  lemma StrippedEntries(raw: seq<Entry>)
    ensures forall o :: o in Stripped(raw) <==> HasEmotion(o) && exists i :: 0 <= i < |raw| && o == StripEntry(raw[i])
  {
    RemoveSentimentsPerEntry(raw, Sentiments);
    var d := RemoveSentiments(raw, Sentiments);
    forall o ensures o in d <==> exists i :: 0 <= i < |raw| && o == StripEntry(raw[i]) {
      if o in d {
        var i :| 0 <= i < |d| && d[i] == o;
        assert o == StripEntry(raw[i]);
      }
      if exists i :: 0 <= i < |raw| && o == StripEntry(raw[i]) {
        var i :| 0 <= i < |raw| && o == StripEntry(raw[i]);
        assert d[i] == o;
      }
    }
  }

  lemma {:induction false} InsertPermutes(e: Entry, s: seq<Entry>)
    ensures multiset(Insert(e, s)) == multiset(s) + multiset{e}
  {
    if s != [] && |e.emotions| < |s[0].emotions| {
      InsertPermutes(e, s[1..]);
      assert s == [s[0]] + s[1..];
    }
  }

  /** Every entry of `Insert(e, s)` is `e` or an entry of `s`. */
  lemma {:induction false} InsertMembers(e: Entry, s: seq<Entry>)
    ensures forall x :: x in Insert(e, s) ==> x == e || x in s
  {
    InsertPermutes(e, s);
    forall x | x in Insert(e, s) ensures x == e || x in s {
      assert x in multiset(Insert(e, s));
    }
  }

  lemma {:induction false} InsertSorted(e: Entry, s: seq<Entry>)
    requires SortedByCount(s)
    ensures SortedByCount(Insert(e, s))
  {
    if s != [] && |e.emotions| < |s[0].emotions| {
      var head, tail := s[0], s[1..];
      SortedTail(s);
      InsertSorted(e, tail);
      InsertMembers(e, tail);
      forall x | x in Insert(e, tail) ensures |x.emotions| <= |head.emotions| {
        if x != e {
          var k :| 0 <= k < |tail| && tail[k] == x;
          assert s[k + 1] == x;
        }
      }
      SortedCons(head, Insert(e, tail));
    }
  }

  lemma SortedTail(s: seq<Entry>)
    requires s != [] && SortedByCount(s)
    ensures SortedByCount(s[1..])
  {
    forall i, j | 0 <= i < j < |s[1..]| ensures |s[1..][i].emotions| >= |s[1..][j].emotions| {
      assert s[1..][i] == s[i + 1] && s[1..][j] == s[j + 1];
    }
  }

  lemma SortedCons(head: Entry, rest: seq<Entry>)
    requires SortedByCount(rest)
    requires forall x :: x in rest ==> |x.emotions| <= |head.emotions|
    ensures SortedByCount([head] + rest)
  {
    var r := [head] + rest;
    forall i, j | 0 <= i < j < |r| ensures |r[i].emotions| >= |r[j].emotions| {
      assert r[j] == rest[j - 1];
      if i == 0 {
        assert r[j] in rest;
      } else {
        assert r[i] == rest[i - 1];
      }
    }
  }


  lemma {:induction false} InsertWithCount(e: Entry, s: seq<Entry>, n: nat)
    ensures WithCount(Insert(e, s), n) == (if |e.emotions| == n then [e] else []) + WithCount(s, n)
  {
    if s == [] {
    } else if |e.emotions| >= |s[0].emotions| {
      FilterConcat([e], s, HasCount(n));
    } else {
      var rest := Insert(e, s[1..]);
      InsertWithCount(e, s[1..], n);
      assert s == [s[0]] + s[1..];
      FilterConcat([s[0]], rest, HasCount(n));
      FilterConcat([s[0]], s[1..], HasCount(n));
    }
  }

  /** The sort yields non-increasing emotion counts, is a permutation, and
      keeps entries of equal count in their input order. */
  lemma {:induction false} SortByCountProperties(s: seq<Entry>)
    ensures SortedByCount(SortByCount(s))
    ensures multiset(SortByCount(s)) == multiset(s)
    ensures forall n :: WithCount(SortByCount(s), n) == WithCount(s, n)
  {
    if s != [] {
      SortByCountProperties(s[1..]);
      InsertPermutes(s[0], SortByCount(s[1..]));
      InsertSorted(s[0], SortByCount(s[1..]));
      assert s == [s[0]] + s[1..];
      forall n ensures WithCount(SortByCount(s), n) == WithCount(s, n) {
        InsertWithCount(s[0], SortByCount(s[1..]), n);
        FilterConcat([s[0]], s[1..], HasCount(n));
      }
    }
  }

  /** nrc_affect_dict: no sentiment tag is left, no word is left without an
      emotion, every entry is an input entry with its sentiments removed (so
      the keys are input keys), every input entry that keeps an emotion is
      present, the counts are non-increasing, and entries with equal counts
      keep their input order. */
  lemma AffectDictProperties(raw: seq<Entry>)
    ensures forall o :: o in AffectDict(raw) ==>
              o.emotions != [] && "positive" !in o.emotions && "negative" !in o.emotions
    ensures forall o :: o in AffectDict(raw) ==>
              exists i :: 0 <= i < |raw| && o == StripEntry(raw[i])
    ensures forall i :: 0 <= i < |raw| && StripEntry(raw[i]).emotions != [] ==>
              StripEntry(raw[i]) in AffectDict(raw)
    ensures SortedByCount(AffectDict(raw))
    ensures multiset(AffectDict(raw)) == multiset(Stripped(raw))
    ensures forall n :: WithCount(AffectDict(raw), n) == WithCount(Stripped(raw), n)
  {
    SortByCountProperties(Stripped(raw));
    AffectDictMembers(raw);
  }

  /** The sorted dictionary holds exactly the stripped entries that keep an
      emotion. */
  lemma AffectDictMembers(raw: seq<Entry>)
    ensures forall o :: o in AffectDict(raw) <==>
              HasEmotion(o) && exists i :: 0 <= i < |raw| && o == StripEntry(raw[i])
  {
    SortByCountProperties(Stripped(raw));
    StrippedEntries(raw);
    forall o ensures o in AffectDict(raw) <==> o in Stripped(raw) {
      assert o in AffectDict(raw) <==> o in multiset(AffectDict(raw));
      assert o in Stripped(raw) <==> o in multiset(Stripped(raw));
    }
  }

  /** The text has no emotion-bearing word exactly when every tag the
      lexicon gives is an elementary sentiment. */
  lemma AffectDictEmptyIff(raw: seq<Entry>)
    ensures AffectDict(raw) == [] <==>
              forall i, v :: 0 <= i < |raw| && v in raw[i].emotions ==> v in Sentiments
  {
    AffectDictMembers(raw);
    if AffectDict(raw) == [] {
      forall i, v | 0 <= i < |raw| && v in raw[i].emotions ensures v in Sentiments {
        var o := StripEntry(raw[i]);
        assert o !in AffectDict(raw);
        assert o.emotions == [];
        assert v !in Unsentimental(raw[i].emotions);
      }
    } else {
      var o := AffectDict(raw)[0];
      assert o in AffectDict(raw);
      var i :| 0 <= i < |raw| && o == StripEntry(raw[i]);
      var v := o.emotions[0];
      assert v in Unsentimental(raw[i].emotions);
      assert v in raw[i].emotions && v !in Sentiments;
    }
  }


  // ---------------------------------------------------------------------
  // nrc_affect_freqs
  // ---------------------------------------------------------------------

  /** The emotion lists of the entries, concatenated in entry order. */
  function Flatten(d: seq<Entry>): seq<Emotion> {
    if d == [] then [] else d[0].emotions + Flatten(d[1..])
  }

  /** affect_list: every emotion tag of the prioritised dictionary. */
  function AffectList(raw: seq<Entry>): seq<Emotion> {
    Flatten(AffectDict(raw))
  }

  /** The Counter over a list of emotions. */
  function CountMap(s: seq<Emotion>): map<Emotion, nat> {
    map e | e in s :: multiset(s)[e]
  }

  /** `sum(values())` of a dict whose key order is `keys`. */
  function SumValues(keys: seq<Emotion>, m: map<Emotion, nat>): nat
    requires forall k :: k in keys ==> k in m
  {
    if keys == [] then 0 else SumValues(keys[..|keys| - 1], m) + m[keys[|keys| - 1]]
  }

  /** Python's `round(x, 2)`: the nearest multiple of 0.01, ties to even. */
  function Round2(x: real): (r: real)
    ensures x - 0.005 <= r <= x + 0.005
  {
    var scaled := x * 100.0;
    var whole := scaled.Floor;
    var frac := scaled - whole as real;
    var n := if frac < 0.5 then whole
             else if frac > 0.5 then whole + 1
             else if whole % 2 == 0 then whole else whole + 1;
    n as real / 100.0
  }

  /** The rounded share of emotion `e` among all tags of `flat`. */
  function Share(flat: seq<Emotion>, e: Emotion): real
    requires e in flat
  {
    Round2(multiset(flat)[e] as real / |flat| as real)
  }

  /** The share of every emotion of `flat`, and 0.0 for any other. */
  function ShareOf(flat: seq<Emotion>): Emotion -> real {
    (e: Emotion) => if e in flat then Share(flat, e) else 0.0
  }

  /** A frequency map over `keys`: `v(e)` for the emotions in `done`, 0.0
      for the others. */
  function Fill(keys: seq<Emotion>, done: seq<Emotion>, v: Emotion -> real): map<Emotion, real> {
    map e | e in keys :: if e in done then v(e) else 0.0
  }

  /** Marking one more emotion as done, and adding it to the keys if it is
      new, is a single map update. */
  lemma FillStep(keys: seq<Emotion>, keys': seq<Emotion>, done: seq<Emotion>, key: Emotion, v: Emotion -> real)
    requires forall e :: e in keys' <==> e in keys || e == key
    ensures Fill(keys', done + [key], v) == Fill(keys, done, v)[key := v(key)]
  {
    var m, m' := Fill(keys, done, v)[key := v(key)], Fill(keys', done + [key], v);
    forall e | e in m' ensures e in m && m[e] == m'[e] {
      assert e in done + [key] <==> e in done || e == key;
    }
  }

  /** Only which emotions are done matters, not their order. */
  lemma FillSameDone(keys: seq<Emotion>, done: seq<Emotion>, done': seq<Emotion>, v: Emotion -> real)
    requires forall e :: e in done <==> e in done'
    ensures Fill(keys, done, v) == Fill(keys, done', v)
  {
  }

  /** An insertion-ordered dict from emotions to frequencies. */
  datatype Table = Table(keys: seq<Emotion>, freq: map<Emotion, real>)

  predicate WellFormed(t: Table) {
    Distinct(t.keys) &&
    (forall k :: k in t.keys ==> k in t.freq) &&
    (forall k :: k in t.freq ==> k in t.keys)
  }

  /** The table nrc_affect_freqs returns: the eight emotions first, then any
      other tag in order of first occurrence; an emotion that occurs gets its
      rounded share, every other one keeps 0.0. */
  function FreqTable(raw: seq<Entry>): (t: Table)
    ensures WellFormed(t)
    ensures |t.keys| >= |Standard| && t.keys[..|Standard|] == Standard
  {
    var flat := AffectList(raw);
    var extra := Filter(Dedup(flat), NotIn(Standard));
    FilterDistinct(Dedup(flat), NotIn(Standard));
    StandardDistinct();
    DistinctConcat(Standard, extra);
    assert (Standard + extra)[..|Standard|] == Standard;
    var keys := Standard + extra;
    Table(keys, Fill(keys, flat, ShareOf(flat)))
  }

  lemma StandardDistinct()
    ensures Distinct(Standard)
  {
    assert Standard[0][0] != Standard[7][0];
    assert Standard[1][0] != Standard[3][0];
  }

  lemma CountMapSnoc(s: seq<Emotion>, x: Emotion)
    ensures CountMap(s + [x]) == CountMap(s)[x := (if x in s then multiset(s)[x] else 0) + 1]
  {
    assert multiset(s + [x]) == multiset(s) + multiset{x};
  }

  /** Adding one occurrence of `x` to the counts adds one to the total when
      `x` is a key. */
  lemma {:induction false} SumValuesBump(keys: seq<Emotion>, m: map<Emotion, nat>, m': map<Emotion, nat>, x: Emotion)
    requires Distinct(keys)
    requires forall k :: k in keys ==> k in m && k in m' && m'[k] == m[k] + (if k == x then 1 else 0)
    ensures SumValues(keys, m') == SumValues(keys, m) + (if x in keys then 1 else 0)
  {
    if keys != [] {
      var init, last := keys[..|keys| - 1], keys[|keys| - 1];
      assert keys == init + [last];
      assert Distinct(init);
      assert last !in init;
      SumValuesBump(init, m, m', x);
    }
  }

  /** The counts of the Counter add up to the length of the counted list. */
  lemma {:induction false} CounterTotal(s: seq<Emotion>)
    ensures SumValues(Dedup(s), CountMap(s)) == |s|
  {
    if s != [] {
      var init, x := s[..|s| - 1], s[|s| - 1];
      assert s == init + [x];
      CounterTotal(init);
      DedupSnoc(init, x);
      CountMapSnoc(init, x);
      var d := Dedup(init);
      SumValuesBump(d, CountMap(init), CountMap(s), x);
      if x !in init {
        assert (d + [x])[..|d|] == d;
      }
    }
  }

  /** The Counter loop of nrc_affect_freqs: keys in order of first
      occurrence, each mapped to its number of occurrences. */
  method CountEmotions(affectList: seq<Emotion>) returns (counterKeys: seq<Emotion>, counts: map<Emotion, nat>)
    ensures counterKeys == Dedup(affectList)
    ensures counts == CountMap(affectList)
  {
    counterKeys, counts := [], map[];
    for i := 0 to |affectList|
      invariant counterKeys == Dedup(affectList[..i])
      invariant counts == CountMap(affectList[..i])
    {
      var emotion := affectList[i];
      assert affectList[..i + 1] == affectList[..i] + [emotion];
      DedupSnoc(affectList[..i], emotion);
      CountMapSnoc(affectList[..i], emotion);
      var current := if emotion in counts then counts[emotion] else 0;
      if emotion !in counts {
        counterKeys := counterKeys + [emotion];
      }
      counts := counts[emotion := current + 1];
    }
    assert affectList[..|affectList|] == affectList;
  }

  /** The key order of the percentage table after the first `i` counted
      emotions have been written into it. */
  function PartialKeys(flat: seq<Emotion>, i: nat): seq<Emotion>
    requires i <= |Dedup(flat)|
  {
    Standard + Filter(Dedup(flat)[..i], NotIn(Standard))
  }

  /** The percentage table after the first `i` counted emotions have been
      written into it. */
  function PartialTable(flat: seq<Emotion>, i: nat): (t: Table)
    requires i <= |Dedup(flat)|
  {
    var keys := PartialKeys(flat, i);
    Table(keys, Fill(keys, Dedup(flat)[..i], ShareOf(flat)))
  }

  lemma PartialTableStep(flat: seq<Emotion>, i: nat)
    requires i < |Dedup(flat)|
    ensures var key, t := Dedup(flat)[i], PartialTable(flat, i);
            PartialTable(flat, i + 1) ==
              Table(if key in t.freq then t.keys else t.keys + [key], t.freq[key := Share(flat, key)])
  {
    var key := Dedup(flat)[i];
    PartialKeysStep(flat, i);
    PartialFreqStep(flat, i);
    assert key in PartialTable(flat, i).freq <==> key in PartialKeys(flat, i);
  }

  lemma PartialKeysStep(flat: seq<Emotion>, i: nat)
    requires i < |Dedup(flat)|
    ensures var key := Dedup(flat)[i];
            PartialKeys(flat, i + 1) ==
              if key in PartialKeys(flat, i) then PartialKeys(flat, i) else PartialKeys(flat, i) + [key]
  {
    var d := Dedup(flat);
    var key := d[i];
    var done := d[..i];
    assert d[..i + 1] == done + [key];
    assert key !in done;
    FilterConcat(done, [key], NotIn(Standard));
    var f := Filter(done, NotIn(Standard));
    assert key in PartialKeys(flat, i) <==> key in Standard;
    if key !in Standard {
      assert Standard + (f + [key]) == (Standard + f) + [key];
    }
  }

  lemma PartialFreqStep(flat: seq<Emotion>, i: nat)
    requires i < |Dedup(flat)|
    ensures var key, t := Dedup(flat)[i], PartialTable(flat, i);
            PartialTable(flat, i + 1).freq == t.freq[key := Share(flat, key)]
  {
    var d := Dedup(flat);
    var key := d[i];
    assert d[..i + 1] == d[..i] + [key];
    PartialKeysStep(flat, i);
    FillStep(PartialKeys(flat, i), PartialKeys(flat, i + 1), d[..i], key, ShareOf(flat));
  }

  lemma PartialTableEnds(flat: seq<Emotion>)
    ensures PartialTable(flat, 0) == Table(Standard, map e | e in Standard :: 0.0)
    ensures var keys := Standard + Filter(Dedup(flat), NotIn(Standard));
            PartialTable(flat, |Dedup(flat)|) == Table(keys, Fill(keys, flat, ShareOf(flat)))
  {
    var d := Dedup(flat);
    assert PartialKeys(flat, 0) == Standard + [] == Standard;
    assert d[..|d|] == d;
    FillSameDone(PartialKeys(flat, |d|), d, flat, ShareOf(flat));
  }

  /** One pass of the percentage loop: the count of the next counted
      emotion over the total, rounded, extends the partial table by one
      step. */
  lemma PercentageStep(flat: seq<Emotion>, i: nat, counterKeys: seq<Emotion>, counts: map<Emotion, nat>,
                       total: nat, keys: seq<Emotion>, freq: map<Emotion, real>)
    requires counterKeys == Dedup(flat) && counts == CountMap(flat)
    requires total == SumValues(counterKeys, counts)
    requires i < |counterKeys|
    requires Table(keys, freq) == PartialTable(flat, i)
    ensures counterKeys[i] in counts && total > 0
    ensures var key := counterKeys[i];
            var share := Round2(counts[key] as real / total as real);
            Table(if key in freq then keys else keys + [key], freq[key := share]) == PartialTable(flat, i + 1)
  {
    CounterTotal(flat);
    PartialTableStep(flat, i);
  }

  /** nrc_affect_freqs: counts every emotion of the prioritised dictionary,
      then overwrites the zero of each counted emotion with its rounded
      share of the total. */
  method NrcAffectFreqs(raw: seq<Entry>) returns (t: Table)
    ensures t == FreqTable(raw)
  {
    var affectList := AffectList(raw);
    var keys := Standard;
    var percentages: map<Emotion, real> := map e | e in Standard :: 0.0;

    var counterKeys, counts := CountEmotions(affectList);
    var sumValues := SumValues(counterKeys, counts);
    PartialTableEnds(affectList);

    for i := 0 to |counterKeys|
      invariant Table(keys, percentages) == PartialTable(affectList, i)
    {
      PercentageStep(affectList, i, counterKeys, counts, sumValues, keys, percentages);
      var key := counterKeys[i];
      var value := counts[key];
      var share := Round2(value as real / sumValues as real);
      if key !in percentages {
        keys := keys + [key];
      }
      percentages := percentages[key := share];
    }
    t := Table(keys, percentages);
  }

  /** The table holds the eight emotions and every tag that occurs; an
      emotion that does not occur keeps 0.0; one that occurs gets its share
      of all tags rounded to two decimals, which is within 0.005 of the exact
      share. */
  lemma FreqTableValues(raw: seq<Entry>)
    ensures var flat, t := AffectList(raw), FreqTable(raw);
            (forall e :: e in t.freq <==> e in Standard || e in flat) &&
            (forall e :: e in t.freq && e !in flat ==> t.freq[e] == 0.0) &&
            (forall e :: e in flat ==> t.freq[e] == Share(flat, e)) &&
            (forall e :: e in flat ==>
               t.freq[e] - 0.005 <= multiset(flat)[e] as real / |flat| as real <= t.freq[e] + 0.005)
  {
  }

  lemma {:induction false} FlattenEmpty(d: seq<Entry>)
    requires forall o :: o in d ==> o.emotions != []
    ensures Flatten(d) == [] <==> d == []
  {
    if d != [] {
      assert d[0] in d;
    }
  }

  /** The prioritised dictionary is empty exactly when it yields no emotion
      tag at all. */
  lemma AffectListEmptyIff(raw: seq<Entry>)
    ensures AffectList(raw) == [] <==> AffectDict(raw) == []
  {
    AffectDictProperties(raw);
    FlattenEmpty(AffectDict(raw));
  }

  /** A tag is in the flattened lists exactly when some entry carries it. */
  lemma {:induction false} FlattenMember(d: seq<Entry>, v: Emotion)
    ensures v in Flatten(d) <==> exists o :: o in d && v in o.emotions
  {
    if d != [] {
      FlattenMember(d[1..], v);
      assert d == [d[0]] + d[1..];
      if exists o :: o in d[1..] && v in o.emotions {
        var o :| o in d[1..] && v in o.emotions;
        assert o in d;
      }
      if v in d[0].emotions {
        assert d[0] in d;
      }
    }
  }

  /** No elementary sentiment reaches the affect list. */
  lemma AffectListSentimentFree(raw: seq<Entry>)
    ensures "positive" !in AffectList(raw) && "negative" !in AffectList(raw)
  {
    AffectDictProperties(raw);
    FlattenMember(AffectDict(raw), "positive");
    FlattenMember(AffectDict(raw), "negative");
  }

  /** The elementary sentiments never become keys of the frequency table:
      only the eight emotions and the remaining tags are scored. */
  lemma FreqTableSentimentFree(raw: seq<Entry>)
    ensures "positive" !in FreqTable(raw).freq && "negative" !in FreqTable(raw).freq
  {
    AffectListSentimentFree(raw);
    SentimentsNotStandard();
    FreqTableValues(raw);
  }

  lemma SentimentsNotStandard()
    ensures "positive" !in Standard && "negative" !in Standard
  {
  }

  /** With no emotion-bearing word nothing is counted and no division
      happens: the table is the eight emotions at 0.0. */
  lemma EmptyAffectTable(raw: seq<Entry>)
    requires AffectDict(raw) == []
    ensures AffectList(raw) == []
    ensures FreqTable(raw) == Table(Standard, map e | e in Standard :: 0.0)
  {
    assert Dedup(AffectList(raw)) == [];
    assert Standard + [] == Standard;
  }

  // ---------------------------------------------------------------------
  // nrc_top_emotions
  // ---------------------------------------------------------------------

  /** `max(values())` over the keys `ks` of the table. */
  function MaxFreq(t: Table, ks: seq<Emotion>): (m: real)
    requires ks != [] && forall k :: k in ks ==> k in t.freq
    ensures forall k :: k in ks ==> t.freq[k] <= m
    ensures exists k :: k in ks && t.freq[k] == m
  {
    if |ks| == 1 then t.freq[ks[0]]
    else
      var rest := MaxFreq(t, ks[1..]);
      assert forall k :: k in ks ==> k == ks[0] || k in ks[1..];
      if t.freq[ks[0]] >= rest then t.freq[ks[0]] else rest
  }

  function HasValue(freq: map<Emotion, real>, m: real): Emotion -> bool {
    (k: Emotion) => k in freq && freq[k] == m
  }

  /** The comprehension of nrc_top_emotions: the keys whose value equals the
      maximum, in table order. They are exactly the keys no other key
      exceeds, and there is at least one. */
  function MaxKeys(t: Table): (r: seq<Emotion>)
    requires t.keys != [] && forall k :: k in t.keys ==> k in t.freq
    ensures r != []
    ensures forall k :: k in r <==> k in t.keys && forall j :: j in t.keys ==> t.freq[j] <= t.freq[k]
    ensures Subseq(r, t.keys)
  {
    var m := MaxFreq(t, t.keys);
    FilterKeepsOrder(t.keys, HasValue(t.freq, m));
    MaxAttainers(t, m);
    var k :| k in t.keys && t.freq[k] == m;
    assert k in Filter(t.keys, HasValue(t.freq, m));
    Filter(t.keys, HasValue(t.freq, m))
  }

  /** The keys holding the maximum value are exactly the keys no other key
      exceeds. */
  lemma MaxAttainers(t: Table, m: real)
    requires forall k :: k in t.keys ==> k in t.freq
    requires forall k :: k in t.keys ==> t.freq[k] <= m
    requires exists k :: k in t.keys && t.freq[k] == m
    ensures forall k :: k in t.keys ==> (t.freq[k] == m <==> forall j :: j in t.keys ==> t.freq[j] <= t.freq[k])
  {
    var w :| w in t.keys && t.freq[w] == m;
    forall k | k in t.keys && t.freq[k] != m
      ensures !(forall j :: j in t.keys ==> t.freq[j] <= t.freq[k])
    {
      assert t.freq[w] > t.freq[k];
    }
  }

  /** nrc_top_emotions: the dominant emotion(s) of the text. */
  function NrcTopEmotions(raw: seq<Entry>): seq<Emotion> {
    MaxKeys(FreqTable(raw))
  }

  /** With no emotion-bearing word all eight emotions tie at 0.0 and all are
      dominant. */
  lemma EmptyAffectTopEmotions(raw: seq<Entry>)
    requires AffectDict(raw) == []
    ensures NrcTopEmotions(raw) == Standard
  {
    EmptyAffectTable(raw);
    var t := FreqTable(raw);
    var m := MaxFreq(t, t.keys);
    assert m == 0.0;
    FilterKeepsAll(Standard, HasValue(t.freq, m));
  }
}
