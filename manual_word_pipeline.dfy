/** The word-substitution attack of `ManualAttack`: the input text is
    lower-cased and its emotion profile cached; for a text without emotion
    words, each content word is replaced by embedding neighbours found in the
    emotion lexicon, the result is grammar-corrected, and the first variant
    that stays semantically close while changing the emotion profile is
    returned.

    The embedding model, the sentence encoder, the grammar checker and the
    text-processing library functions are parameters of the model (oracles);
    the module proves what the pipeline does with their answers. */
module ManualWordPipeline {
  import opened Seqs
  import opened NrcTool

  datatype Option<T> = None | Some(value: T)

  /** A grammar issue reported by the language tool. Issues of two texts are
      compared by their message only. */
  datatype Match = Match(message: string, offset: int, errorLength: int, replacements: seq<string>)

  /** Word vectors: `mostSimilar(word, n)` lists the `n` nearest neighbours
      of `word` with their cosine similarity; `contains` is vocabulary
      membership. */
  datatype Embeddings = Embeddings(mostSimilar: (string, nat) -> seq<(string, real)>, contains: string -> bool)

  /** The sentence encoder followed by the cosine similarity of the two
      encodings. */
  datatype SentenceModel = SentenceModel(cosSim: (string, string) -> real)

  /** The grammar checker: the issues it reports for a text, in order. */
  datatype LanguageTool = LanguageTool(check: string -> seq<Match>)

  /** Library functions the pipeline calls: the NRC lexicon analysis of a
      text, stop-word removal, tokenisation, and the corrector that applies
      the first suggested replacement of each given issue. */
  datatype Libraries = Libraries(
    nrcLex: string -> seq<Entry>,
    removeStopwords: string -> string,
    tokenize: string -> seq<string>,
    correct: (string, seq<Match>) -> string)

  /** Returned when no candidate passes the acceptance test. */
  const Sentinel: string := "No adversarial attack found."

  /** Number of embedding neighbours asked for per word. */
  const TopN: nat := 50

  /** Default similarity thresholds of the constructor. */
  const DefaultWordSim: real := 0.60
  const DefaultSentSim: real := 0.60

  // ---------------------------------------------------------------------
  // Text helpers
  // ---------------------------------------------------------------------

  predicate IsUpper(c: char) {
    'A' <= c <= 'Z'
  }

  function LowerChar(c: char): char {
    if IsUpper(c) then (c as int + 32) as char else c
  }

  /** `str.lower()` on the ASCII letters: every upper-case letter becomes its
      lower-case counterpart and nothing else changes. */
  function Lower(s: string): (r: string)
    ensures |r| == |s|
    ensures forall i :: 0 <= i < |s| ==> !IsUpper(r[i])
    ensures forall i :: 0 <= i < |s| && !IsUpper(s[i]) ==> r[i] == s[i]
    ensures forall i :: 0 <= i < |s| && IsUpper(s[i]) ==> r[i] as int == s[i] as int + 32
  {
    seq(|s|, i requires 0 <= i < |s| => LowerChar(s[i]))
  }

  /** Lower-casing a lower-cased text changes nothing. */
  lemma LowerIdempotent(s: string)
    ensures Lower(Lower(s)) == Lower(s)
  {
  }

  /** The 32 ASCII punctuation characters of Python's `string.punctuation`. */
  const Punctuation: string := "!\"#$%&'()*+,-./:;<=>?@[\\]^_`{|}~"

  predicate NotPunctuation(c: char) {
    c !in Punctuation
  }

  /** `s.translate(str.maketrans('', '', string.punctuation))`: deletes every
      punctuation character and keeps the rest in order. */
  function StripPunctuation(s: string): (r: string)
    ensures forall c :: c in r <==> c in s && c !in Punctuation
    ensures Subseq(r, s)
    ensures forall c :: c !in Punctuation ==> multiset(r)[c] == multiset(s)[c]
  {
    FilterKeepsOrder(s, NotPunctuation);
    Filter(s, NotPunctuation)
  }

  /** `pat` occurs in `s` starting at position `i`. */
  predicate OccursAt(s: string, pat: string, i: int) {
    0 <= i && i + |pat| <= |s| && s[i..i + |pat|] == pat
  }

  /** `rep` before every character of `s` and after the last one: what a
      substitution with the empty pattern does. */
  function InsertEverywhere(s: string, rep: string): string {
    if s == [] then rep else rep + [s[0]] + InsertEverywhere(s[1..], rep)
  }

  /** `re.sub(pat, rep, s)` for a pattern and replacement without regular
      expression metacharacters: every occurrence of `pat`, scanned left to
      right without overlap, is replaced by `rep`. */
  function ReplaceAll(s: string, pat: string, rep: string): string
    decreases |s|
  {
    if pat == [] then InsertEverywhere(s, rep)
    else if |s| < |pat| then s
    else if s[..|pat|] == pat then rep + ReplaceAll(s[|pat|..], pat, rep)
    else [s[0]] + ReplaceAll(s[1..], pat, rep)
  }

  /** A word that does not occur is not replaced. */
  lemma {:induction false} ReplaceAllAbsent(s: string, pat: string, rep: string)
    requires pat != []
    requires forall i :: !OccursAt(s, pat, i)
    ensures ReplaceAll(s, pat, rep) == s
  {
    if |s| >= |pat| {
      assert !OccursAt(s, pat, 0);
      forall i ensures !OccursAt(s[1..], pat, i) {
        assert !OccursAt(s, pat, i + 1);
        if 0 <= i && i + |pat| <= |s[1..]| {
          assert s[1..][i..i + |pat|] == s[i + 1..i + 1 + |pat|];
        }
      }
      ReplaceAllAbsent(s[1..], pat, rep);
      assert [s[0]] + s[1..] == s;
    }
  }

  /** Replacing a word by itself is the identity. */
  lemma {:induction false} ReplaceAllSelf(s: string, pat: string)
    requires pat != []
    ensures ReplaceAll(s, pat, pat) == s
  {
    if |s| >= |pat| {
      if s[..|pat|] == pat {
        ReplaceAllSelf(s[|pat|..], pat);
        assert s[..|pat|] + s[|pat|..] == s;
      } else {
        ReplaceAllSelf(s[1..], pat);
        assert [s[0]] + s[1..] == s;
      }
    }
  }

  /** An occurrence at the front is replaced and the scan resumes after it. */
  lemma ReplaceAllAtFront(s: string, pat: string, rep: string)
    requires pat != [] && OccursAt(s, pat, 0)
    ensures ReplaceAll(s, pat, rep) == rep + ReplaceAll(s[|pat|..], pat, rep)
  {
  }

  /** The leftmost occurrence of `pat` in `s` starts at `k`, stated one
      character at a time. */
  ghost predicate LeftmostAt(s: string, pat: string, k: nat)
    decreases k
  {
    k + |pat| <= |s| &&
    if k == 0 then OccursAt(s, pat, 0)
    else !OccursAt(s, pat, 0) && LeftmostAt(s[1..], pat, k - 1)
  }

  /** `LeftmostAt` is an occurrence at `k` with none before it. */
  lemma {:induction false} LeftmostAtSpec(s: string, pat: string, k: nat)
    requires OccursAt(s, pat, k) && forall j :: 0 <= j < k ==> !OccursAt(s, pat, j)
    ensures LeftmostAt(s, pat, k)
    decreases k
  {
    if k > 0 {
      assert !OccursAt(s, pat, 0);
      assert s[1..][k - 1..k - 1 + |pat|] == s[k..k + |pat|];
      forall j | 0 <= j < k - 1 ensures !OccursAt(s[1..], pat, j) {
        assert !OccursAt(s, pat, j + 1);
        assert s[1..][j..j + |pat|] == s[j + 1..j + 1 + |pat|];
      }
      LeftmostAtSpec(s[1..], pat, k - 1);
    }
  }

  /** A result for the text without its first character, shifted back by
      that character. */
  lemma PrefixShift(s: string, k: nat, x: string, y: string, mid: string, r: string)
    requires 0 < k <= |s|
    requires x == [s[0]] + y && y == s[1..][..k - 1] + mid + r
    ensures x == s[..k] + mid + r
  {
    assert s[..k] == [s[0]] + s[1..][..k - 1];
  }

  /** Where the word does not start, one character is kept as it is. */
  lemma ReplaceAllSkip(s: string, pat: string, rep: string)
    requires pat != [] && |s| >= |pat| && !OccursAt(s, pat, 0)
    ensures ReplaceAll(s, pat, rep) == [s[0]] + ReplaceAll(s[1..], pat, rep)
  {
  }

  /** `ReplaceAllLeftmost` for the one-character-at-a-time form, with the
      text after the occurrence named `rest`. */
  lemma {:induction false} ReplaceAllFromLeftmost(s: string, k: nat, pat: string, rep: string, rest: string)
    requires pat != [] && LeftmostAt(s, pat, k) && rest == s[k + |pat|..]
    ensures ReplaceAll(s, pat, rep) == s[..k] + rep + ReplaceAll(rest, pat, rep)
    decreases k
  {
    if k == 0 {
      ReplaceAllAtFront(s, pat, rep);
      assert s[..0] == [];
    } else {
      var t := s[1..];
      ReplaceAllSkip(s, pat, rep);
      assert rest == t[k - 1 + |pat|..];
      ReplaceAllFromLeftmost(t, k - 1, pat, rep, rest);
      PrefixShift(s, k, ReplaceAll(s, pat, rep), ReplaceAll(t, pat, rep), rep, ReplaceAll(rest, pat, rep));
    }
  }

  /** The leftmost occurrence, at `k`, is replaced, the text before it is
      kept, and the scan resumes right after it. */
  lemma ReplaceAllLeftmost(s: string, k: nat, pat: string, rep: string)
    requires pat != [] && OccursAt(s, pat, k)
    requires forall j :: 0 <= j < k ==> !OccursAt(s, pat, j)
    ensures ReplaceAll(s, pat, rep) == s[..k] + rep + ReplaceAll(s[k + |pat|..], pat, rep)
  {
    LeftmostAtSpec(s, pat, k);
    ReplaceAllFromLeftmost(s, k, pat, rep, s[k + |pat|..]);
  }

  /** A longer replacement never shortens the text, a shorter one never
      lengthens it. */
  lemma {:induction false} ReplaceAllLength(s: string, pat: string, rep: string)
    requires pat != []
    ensures |rep| >= |pat| ==> |ReplaceAll(s, pat, rep)| >= |s|
    ensures |rep| <= |pat| ==> |ReplaceAll(s, pat, rep)| <= |s|
    decreases |s|
  {
    if |s| >= |pat| {
      if s[..|pat|] == pat {
        ReplaceAllLength(s[|pat|..], pat, rep);
      } else {
        ReplaceAllLength(s[1..], pat, rep);
      }
    }
  }

  /** If the word occurs anywhere, inside a longer word or not, and the
      replacement differs from it, the text changes. */
  lemma {:induction false} ReplaceAllChanges(s: string, pat: string, rep: string, i: int)
    requires pat != [] && rep != pat && OccursAt(s, pat, i)
    ensures ReplaceAll(s, pat, rep) != s
    decreases |s|
  {
    var r := ReplaceAll(s, pat, rep);
    if s[..|pat|] == pat {
      var rest := s[|pat|..];
      assert r == rep + ReplaceAll(rest, pat, rep);
      assert s == pat + rest;
      ReplaceAllLength(rest, pat, rep);
      if |rep| == |pat| {
        assert r[..|pat|] == rep;
      }
    } else {
      assert i != 0;
      assert OccursAt(s[1..], pat, i - 1) by {
        assert s[1..][i - 1..i - 1 + |pat|] == s[i..i + |pat|];
      }
      ReplaceAllChanges(s[1..], pat, rep, i - 1);
      assert r == [s[0]] + ReplaceAll(s[1..], pat, rep);
      assert r[1..] == ReplaceAll(s[1..], pat, rep);
    }
  }

  /** The substitution leaves the text unchanged exactly when the word is
      replaced by itself or does not occur at all. */
  lemma ReplaceAllUnchangedIff(s: string, pat: string, rep: string)
    requires pat != []
    ensures ReplaceAll(s, pat, rep) == s <==> rep == pat || forall i :: !OccursAt(s, pat, i)
  {
    if rep == pat {
      ReplaceAllSelf(s, pat);
    } else if forall i :: !OccursAt(s, pat, i) {
      ReplaceAllAbsent(s, pat, rep);
    } else {
      var i :| OccursAt(s, pat, i);
      ReplaceAllChanges(s, pat, rep, i);
    }
  }

  /** The pattern is matched inside longer words too, and every occurrence
      is replaced. */
  lemma ReplaceAllInsideWords()
    ensures ReplaceAll("cart car", "car", "bus") == "bust bus"
  {
    assert ReplaceAll("car", "car", "bus") == "bus";
    assert ReplaceAll(" car", "car", "bus") == " bus";
    assert ReplaceAll("t car", "car", "bus") == "t bus";
    assert "cart car"[..3] == "car" && "cart car"[3..] == "t car";
  }

  /** Occurrences are taken without overlap: the one that starts inside a
      replaced occurrence is left as it is. */
  lemma ReplaceAllNoOverlap()
    ensures ReplaceAll("lolol", "lol", "x") == "xol"
  {
    assert "lolol"[..3] == "lol" && "lolol"[3..] == "ol";
    assert ReplaceAll("ol", "lol", "x") == "ol";
  }

  // ---------------------------------------------------------------------
  // Selection of the grammar fixes
  // ---------------------------------------------------------------------

  /** The issues of `m2` below position `n` whose message differs from the
      issue of `m1` at the same position, in order: what the scan over the
      shared prefix collects. */
  function PrefixFixes(m1: seq<Match>, m2: seq<Match>, n: nat): seq<Match>
    requires n <= |m1| && n <= |m2|
  {
    if n == 0 then []
    else PrefixFixes(m1, m2, n - 1) + (if m2[n - 1].message != m1[n - 1].message then [m2[n - 1]] else [])
  }

  /** The issues of the perturbed text (`m2`) handed to the corrector when
      the original text has the issues `m1`: with more issues than the
      original, the prefix mismatches followed by the last issue (the scan
      runs past the original's issues and the handler adds the last one);
      otherwise none. */
  function FixSelection(m1: seq<Match>, m2: seq<Match>): seq<Match> {
    if |m1| < |m2| then PrefixFixes(m1, m2, |m1|) + [m2[|m2| - 1]] else []
  }

  /** The positions below `n` at which the two issue lists report different
      messages, in increasing order. */
  function MismatchPositions(m1: seq<Match>, m2: seq<Match>, n: nat): (ps: seq<nat>)
    requires n <= |m1| && n <= |m2|
    ensures forall k :: 0 <= k < |ps| ==> ps[k] < n
  {
    if n == 0 then []
    else
      MismatchPositions(m1, m2, n - 1) + (if m2[n - 1].message != m1[n - 1].message then [n - 1] else [])
  }

  /** The mismatch positions are increasing and are exactly the positions
      where the messages differ. */
  lemma {:induction false} MismatchPositionsSpec(m1: seq<Match>, m2: seq<Match>, n: nat)
    requires n <= |m1| && n <= |m2|
    ensures var ps := MismatchPositions(m1, m2, n);
            (forall k, l :: 0 <= k < l < |ps| ==> ps[k] < ps[l]) &&
            (forall i :: 0 <= i < n ==> (i in ps <==> m2[i].message != m1[i].message))
  {
    if n > 0 {
      var ps := MismatchPositions(m1, m2, n - 1);
      MismatchPositionsSpec(m1, m2, n - 1);
      if m2[n - 1].message != m1[n - 1].message {
        assert MismatchPositions(m1, m2, n) == ps + [n - 1];
      } else {
        assert MismatchPositions(m1, m2, n) == ps + [] == ps;
      }
    }
  }

  /** The elements of `s` at positions `ps`, in that order. */
  function Pick(s: seq<Match>, ps: seq<nat>): (r: seq<Match>)
    requires forall k :: 0 <= k < |ps| ==> ps[k] < |s|
    ensures |r| == |ps| && forall k :: 0 <= k < |ps| ==> r[k] == s[ps[k]]
  {
    seq(|ps|, k requires 0 <= k < |ps| => s[ps[k]])
  }

  lemma PickSnoc(s: seq<Match>, ps: seq<nat>, p: nat)
    requires forall k :: 0 <= k < |ps| ==> ps[k] < |s|
    requires p < |s|
    ensures Pick(s, ps + [p]) == Pick(s, ps) + [s[p]]
  {
  }

  /** The collected prefix fixes are the issues of `m2` at the mismatch
      positions. */
  lemma {:induction false} PrefixFixesPositions(m1: seq<Match>, m2: seq<Match>, n: nat)
    requires n <= |m1| && n <= |m2|
    ensures PrefixFixes(m1, m2, n) == Pick(m2, MismatchPositions(m1, m2, n))
  {
    if n > 0 {
      PrefixFixesPositions(m1, m2, n - 1);
      PrefixFixesStep(m1, m2, n);
    }
  }

  /** One more position of the scan extends both sides alike. */
  lemma PrefixFixesStep(m1: seq<Match>, m2: seq<Match>, n: nat)
    requires 0 < n <= |m1| && n <= |m2|
    requires PrefixFixes(m1, m2, n - 1) == Pick(m2, MismatchPositions(m1, m2, n - 1))
    ensures PrefixFixes(m1, m2, n) == Pick(m2, MismatchPositions(m1, m2, n))
  {
    var ps := MismatchPositions(m1, m2, n - 1);
    var pre := PrefixFixes(m1, m2, n - 1);
    if m2[n - 1].message != m1[n - 1].message {
      assert MismatchPositions(m1, m2, n) == ps + [n - 1];
      assert PrefixFixes(m1, m2, n) == pre + [m2[n - 1]];
      PickSnoc(m2, ps, n - 1);
    } else {
      assert MismatchPositions(m1, m2, n) == ps + [] == ps;
      assert PrefixFixes(m1, m2, n) == pre + [] == pre;
    }
  }

  /** Every selected issue is the last issue or a mismatch of the shared
      prefix. */
  lemma FixSelectionOnlyMismatches(m1: seq<Match>, m2: seq<Match>)
    requires |m1| < |m2|
    ensures forall x :: x in FixSelection(m1, m2) ==>
              x == m2[|m2| - 1] || exists i :: 0 <= i < |m1| && x == m2[i] && m2[i].message != m1[i].message
  {
    var mp := MismatchPositions(m1, m2, |m1|);
    var pre := PrefixFixes(m1, m2, |m1|);
    var f := FixSelection(m1, m2);
    PrefixFixesPositions(m1, m2, |m1|);
    MismatchPositionsSpec(m1, m2, |m1|);
    assert f == pre + [m2[|m2| - 1]];
    forall x | x in f
      ensures x == m2[|m2| - 1] || exists i :: 0 <= i < |m1| && x == m2[i] && m2[i].message != m1[i].message
    {
      var k :| 0 <= k < |f| && f[k] == x;
      if k < |pre| {
        assert pre[k] == m2[mp[k]] && mp[k] in mp;
      }
    }
  }

  /** Every mismatch of the shared prefix is selected. */
  lemma FixSelectionAllMismatches(m1: seq<Match>, m2: seq<Match>)
    requires |m1| < |m2|
    ensures forall i :: 0 <= i < |m1| && m2[i].message != m1[i].message ==> m2[i] in FixSelection(m1, m2)
  {
    var mp := MismatchPositions(m1, m2, |m1|);
    var pre := PrefixFixes(m1, m2, |m1|);
    var f := FixSelection(m1, m2);
    PrefixFixesPositions(m1, m2, |m1|);
    MismatchPositionsSpec(m1, m2, |m1|);
    assert f == pre + [m2[|m2| - 1]];
    forall i | 0 <= i < |m1| && m2[i].message != m1[i].message
      ensures m2[i] in f
    {
      var k :| 0 <= k < |mp| && mp[k] == i;
      assert f[k] == pre[k] == m2[i];
    }
  }

  /** Something is fixed exactly when the perturbation adds issues. Then
      its last issue is fixed, together with exactly those issues of the
      shared prefix whose message differs from the original's at the same
      position, in their order; nothing between the end of the shared
      prefix and the last issue is fixed. */
  lemma FixSelectionSpec(m1: seq<Match>, m2: seq<Match>)
    ensures FixSelection(m1, m2) != [] <==> |m1| < |m2|
    ensures |m1| < |m2| ==> FixSelection(m1, m2)[|FixSelection(m1, m2)| - 1] == m2[|m2| - 1]
    ensures |m1| < |m2| ==> forall x :: x in FixSelection(m1, m2) ==>
              x == m2[|m2| - 1] || exists i :: 0 <= i < |m1| && x == m2[i] && m2[i].message != m1[i].message
    ensures |m1| < |m2| ==> forall i :: 0 <= i < |m1| && m2[i].message != m1[i].message ==> m2[i] in FixSelection(m1, m2)
    ensures |m1| < |m2| ==> |FixSelection(m1, m2)| == 1 + |MismatchPositions(m1, m2, |m1|)|
  {
    if |m1| < |m2| {
      PrefixFixesPositions(m1, m2, |m1|);
      FixSelectionOnlyMismatches(m1, m2);
      FixSelectionAllMismatches(m1, m2);
    }
  }

  /** One new issue after two unchanged ones: only the new issue is fixed. */
  lemma SelectionExample(a: Match, b: Match, c: Match)
    ensures FixSelection([a, b], [a, b, c]) == [c]
  {
    assert PrefixFixes([a, b], [a, b, c], 1) == [];
    assert PrefixFixes([a, b], [a, b, c], 2) == [];
  }

  // ---------------------------------------------------------------------
  // Search order
  // ---------------------------------------------------------------------

  /** The candidates a search over `words` tries, in order: the row of each
      word for which `inVocab` holds, word after word. */
  function Tries(words: seq<string>, inVocab: string -> bool, row: string -> seq<string>): seq<string> {
    if words == [] then []
    else
      var init, w := words[..|words| - 1], words[|words| - 1];
      Tries(init, inVocab, row) + (if inVocab(w) then row(w) else [])
  }

  /** No element of `ts` satisfies `ok`. */
  predicate NoneOf(ts: seq<string>, ok: string -> bool) {
    forall j :: 0 <= j < |ts| ==> !ok(ts[j])
  }

  /** `r` is the first element of `ts` satisfying `ok`, or `none` when there
      is no such element. */
  predicate FirstOrElse(ts: seq<string>, ok: string -> bool, r: string, none: string) {
    (exists k :: 0 <= k < |ts| && ts[k] == r && ok(r) && NoneOf(ts[..k], ok))
    || (r == none && NoneOf(ts, ok))
  }

  /** When the fallback is returned and is not itself acceptable, nothing
      was acceptable. */
  lemma FirstOrElseNone(ts: seq<string>, ok: string -> bool, none: string)
    requires FirstOrElse(ts, ok, none, none) && !ok(none)
    ensures NoneOf(ts, ok)
  {
  }

  lemma NoneOfSnoc(ts: seq<string>, c: nat, ok: string -> bool)
    requires c < |ts| && NoneOf(ts[..c], ok) && !ok(ts[c])
    ensures NoneOf(ts[..c + 1], ok)
  {
    assert ts[..c + 1] == ts[..c] + [ts[c]];
  }

  /** The tries for one more word follow those for the words before it. */
  lemma TriesStep(words: seq<string>, w: nat, inVocab: string -> bool, row: string -> seq<string>)
    requires w < |words|
    ensures Tries(words[..w + 1], inVocab, row) ==
              Tries(words[..w], inVocab, row) + (if inVocab(words[w]) then row(words[w]) else [])
  {
    assert words[..w + 1][..w] == words[..w];
  }

  /** The tries for a prefix of the words come first. */
  lemma {:induction false} TriesPrefix(words: seq<string>, n: nat, inVocab: string -> bool, row: string -> seq<string>)
    requires n <= |words|
    ensures |Tries(words[..n], inVocab, row)| <= |Tries(words, inVocab, row)|
    ensures Tries(words, inVocab, row)[..|Tries(words[..n], inVocab, row)|] == Tries(words[..n], inVocab, row)
    decreases |words|
  {
    if n < |words| {
      var init := words[..|words| - 1];
      assert init[..n] == words[..n];
      TriesPrefix(init, n, inVocab, row);
    } else {
      assert words[..n] == words;
    }
  }

  /** Every element of the row of every in-vocabulary word is tried. */
  lemma {:induction false} TriesCover(words: seq<string>, word: string, x: string, inVocab: string -> bool, row: string -> seq<string>)
    requires word in words && inVocab(word) && x in row(word)
    ensures x in Tries(words, inVocab, row)
  {
    var init, w := words[..|words| - 1], words[|words| - 1];
    if w != word {
      var i :| 0 <= i < |words| && words[i] == word;
      assert init[i] == word;
      TriesCover(init, word, x, inVocab, row);
    }
  }

  /** An acceptable element of a word's row, preceded only by unacceptable
      tries, is what the search returns. */
  lemma FirstFound(words: seq<string>, w: nat, c: nat, inVocab: string -> bool, row: string -> seq<string>,
                   ok: string -> bool, none: string)
    requires w < |words| && inVocab(words[w])
    requires c < |row(words[w])| && ok(row(words[w])[c])
    requires NoneOf(Tries(words[..w], inVocab, row), ok)
    requires NoneOf(row(words[w])[..c], ok)
    ensures FirstOrElse(Tries(words, inVocab, row), ok, row(words[w])[c], none)
  {
    var before, r := Tries(words[..w], inVocab, row), row(words[w]);
    var upto, tried := Tries(words[..w + 1], inVocab, row), Tries(words, inVocab, row);
    TriesStep(words, w, inVocab, row);
    TriesPrefix(words, w + 1, inVocab, row);
    assert upto == before + r;
    assert forall j :: 0 <= j < |upto| ==> tried[j] == upto[j] by {
      assert tried[..|upto|] == upto;
    }
    assert tried[|before| + c] == r[c];
    assert tried[..|before| + c] == before + r[..c];
  }

  // ---------------------------------------------------------------------
  // The attack object
  // ---------------------------------------------------------------------

  /** The attack on one text. Every field is set once, by the constructor. */
  class ManualAttack {
    const text: string
    const lexicon: set<string>
    const embeddings: Embeddings
    const sentenceModel: SentenceModel
    const langTool: LanguageTool
    const libs: Libraries
    const wordSim: real
    const sentSim: real
    const affectFreqs: Table
    const topEmotions: seq<Emotion>

    /** Stores the lower-cased text and the models, and caches the emotion
        frequencies and top emotions of the lower-cased text. */
    constructor (text_: string, lexicon_: set<string>, embeddings_: Embeddings,
                 sentenceModel_: SentenceModel, langTool_: LanguageTool, libs_: Libraries,
                 wordSim_: real := DefaultWordSim, sentSim_: real := DefaultSentSim)
      ensures text == Lower(text_)
      ensures lexicon == lexicon_ && embeddings == embeddings_ && sentenceModel == sentenceModel_
      ensures langTool == langTool_ && libs == libs_
      ensures wordSim == wordSim_ && sentSim == sentSim_
      ensures affectFreqs == FreqTable(libs_.nrcLex(Lower(text_)))
      ensures topEmotions == NrcTopEmotions(libs_.nrcLex(Lower(text_)))
    {
      var lowered := Lower(text_);
      var freqs := NrcAffectFreqs(libs_.nrcLex(lowered));
      text := lowered;
      lexicon := lexicon_;
      embeddings := embeddings_;
      sentenceModel := sentenceModel_;
      langTool := langTool_;
      libs := libs_;
      wordSim := wordSim_;
      sentSim := sentSim_;
      affectFreqs := freqs;
      topEmotions := NrcTopEmotions(libs_.nrcLex(lowered));
    }

    /** The words of the `TopN` nearest neighbours of `word`, nearest first. */
    function Neighbours(word: string): seq<string> {
      var ms := embeddings.mostSimilar(word, TopN);
      seq(|ms|, i requires 0 <= i < |ms| => ms[i].0)
    }

    predicate InLexicon(w: string) {
      w in lexicon
    }

    /** The replacement candidates for `word`: the neighbours that are
        lexicon words, without repetitions, in the order of their first
        appearance among the neighbours. */
    function NonEmotionalReplacement(word: string): (r: seq<string>)
      ensures Distinct(r)
      ensures forall c :: c in r <==> c in Neighbours(word) && c in lexicon
      ensures forall i, j :: 0 <= i < j < |r| ==>
                FirstIndex(Neighbours(word), r[i]) < FirstIndex(Neighbours(word), r[j])
    {
      FilterDedupOrder(Neighbours(word), InLexicon);
      Dedup(Filter(Neighbours(word), InLexicon))
    }

    /** The corrected perturbed text: the corrector applied to the selected
        issues of `newText`. */
    function Fixed(newText: string): string {
      libs.correct(newText, FixSelection(langTool.check(text), langTool.check(newText)))
    }

    /** Checks both texts and corrects the issues the perturbation
        introduced, with the loop, the caught index error and the `break`
        of the control flow of `lang_check`. */
    method LangCheck(newText: string) returns (fixed: string)
      ensures fixed == Fixed(newText)
    {
      var matches1 := langTool.check(text);
      var matches2 := langTool.check(newText);
      var foundFixes: seq<Match> := [];
      ghost var passes := 0;
      while foundFixes == []
        invariant passes <= 1
        invariant passes == 0 <==> foundFixes == []
        invariant foundFixes == [] || foundFixes == FixSelection(matches1, matches2)
        decreases if foundFixes == [] then 1 else 0
      {
        // the body of the `try`; an index past the original's issues raises
        var indexError := false;
        if |matches1| < |matches2| {
          var i := 0;
          while i < |matches2|
            invariant 0 <= i <= |matches1|
            invariant !indexError
            invariant foundFixes == PrefixFixes(matches1, matches2, i)
          {
            if i >= |matches1| {
              indexError := true;
              break;
            }
            if matches2[i].message != matches1[i].message {
              foundFixes := foundFixes + [matches2[i]];
            }
            i := i + 1;
          }
        }
        if !indexError {
          break;
        }
        // the `except IndexError` handler
        foundFixes := foundFixes + [matches2[|matches2| - 1]];
        passes := passes + 1;
      }
      fixed := libs.correct(newText, foundFixes);
    }

    /** The candidate text obtained by replacing `word` with `candidate`
        everywhere in the text and correcting the result. */
    function Perturb(word: string, candidate: string): string {
      Fixed(ReplaceAll(text, word, candidate))
    }

    /** Two texts are close when their encodings' cosine similarity reaches
        the sentence threshold. */
    predicate SentenceSimilarity(a: string, b: string) {
      sentenceModel.cosSim(a, b) >= sentSim
    }

    /** The acceptance test of a candidate text: it differs from the text, it
        is close to it, and its emotion frequencies differ from the cached
        ones. */
    predicate Accepts(newText: string) {
      newText != text
      && SentenceSimilarity(text, newText)
      && FreqTable(libs.nrcLex(newText)).freq != affectFreqs.freq
    }

    /** The content words of the text: stop words removed, punctuation
        stripped, then tokenised. */
    function TargetWords(): seq<string> {
      libs.tokenize(StripPunctuation(libs.removeStopwords(text)))
    }

    /** The candidate texts tried for one word, in order. */
    function Row(word: string): (r: seq<string>)
      ensures |r| == |NonEmotionalReplacement(word)|
      ensures forall k :: 0 <= k < |r| ==> r[k] == Perturb(word, NonEmotionalReplacement(word)[k])
    {
      var cs := NonEmotionalReplacement(word);
      seq(|cs|, k requires 0 <= k < |cs| => Perturb(word, cs[k]))
    }

    function RowFn(): string -> seq<string> {
      (w: string) => Row(w)
    }

    function AcceptsFn(): string -> bool {
      (t: string) => Accepts(t)
    }

    /** Every candidate text the search tries for the word order `words`, in
        the order it tries them. */
    function Attempts(words: seq<string>): seq<string> {
      Tries(words, embeddings.contains, RowFn())
    }

    /** `r` is what the search over `words` returns: the first accepted
        attempt, or the sentinel when no attempt is accepted. */
    predicate SearchOutcome(words: seq<string>, r: string) {
      FirstOrElse(Attempts(words), AcceptsFn(), r, Sentinel)
    }

    /** The row of a word holds the attempt with each of its candidates. */
    lemma RowCovers(word: string, candidate: string)
      requires candidate in NonEmotionalReplacement(word)
      ensures Perturb(word, candidate) in Row(word)
    {
      var cs := NonEmotionalReplacement(word);
      var k :| 0 <= k < |cs| && cs[k] == candidate;
      assert Row(word)[k] == Perturb(word, candidate);
    }

    /** The search over one shuffled order of the target words. */
    method NonEmotionalPipeline(shuffled: seq<string>) returns (r: string)
      requires multiset(shuffled) == multiset(TargetWords())
      ensures SearchOutcome(shuffled, r)
      ensures r == Sentinel || (r != text && SentenceSimilarity(text, r) && FreqTable(libs.nrcLex(r)).freq != affectFreqs.freq)
    {
      ghost var rowOf, ok := RowFn(), AcceptsFn();
      for w := 0 to |shuffled|
        invariant NoneOf(Tries(shuffled[..w], embeddings.contains, rowOf), ok)
      {
        var word := shuffled[w];
        TriesStep(shuffled, w, embeddings.contains, rowOf);
        if embeddings.contains(word) {
          var candidates := NonEmotionalReplacement(word);
          ghost var row := rowOf(word);
          assert |row| == |candidates|;
          for c := 0 to |candidates|
            invariant NoneOf(row[..c], ok)
          {
            var newText := LangCheck(ReplaceAll(text, word, candidates[c]));
            assert newText == row[c];
            var accepted := false;
            if newText != text && SentenceSimilarity(text, newText) {
              var freqs := NrcAffectFreqs(libs.nrcLex(newText));
              accepted := freqs.freq != affectFreqs.freq;
            }
            assert accepted == ok(newText);
            if accepted {
              FirstFound(shuffled, w, c, embeddings.contains, rowOf, ok, Sentinel);
              return newText;
            }
            NoneOfSnoc(row, c, ok);
          }
          assert row[..|candidates|] == row;
        }
      }
      assert shuffled[..|shuffled|] == shuffled;
      r := Sentinel;
    }

    /** When the search finds nothing, every candidate of every
        in-vocabulary target word was rejected. */
    lemma ExhaustedSearch(shuffled: seq<string>, word: string, candidate: string)
      requires multiset(shuffled) == multiset(TargetWords())
      requires SearchOutcome(shuffled, Sentinel) && !Accepts(Sentinel)
      requires word in TargetWords() && embeddings.contains(word)
      requires candidate in NonEmotionalReplacement(word)
      ensures !Accepts(Perturb(word, candidate))
    {
      assert word in multiset(shuffled);
      RowCovers(word, candidate);
      assert Perturb(word, candidate) in RowFn()(word);
      TriesCover(shuffled, word, Perturb(word, candidate), embeddings.contains, RowFn());
      FirstOrElseNone(Attempts(shuffled), AcceptsFn(), Sentinel);
    }

    /** The words of the prioritised emotion dictionary of the text. */
    function TargetWordsPrio(): (r: seq<string>)
      ensures |r| == |AffectDict(libs.nrcLex(text))|
    {
      var d := AffectDict(libs.nrcLex(text));
      seq(|d|, i requires 0 <= i < |d| => d[i].word)
    }

    /** Runs the search for a text without emotion words; a text with
        emotion words gets no result. */
    method FullPipeline(shuffled: seq<string>) returns (r: Option<string>)
      requires multiset(shuffled) == multiset(TargetWords())
      ensures r.Some? <==> AffectDict(libs.nrcLex(text)) == []
      ensures r.Some? ==> SearchOutcome(shuffled, r.value)
    {
      var targetWordsPrio := TargetWordsPrio();
      if targetWordsPrio == [] {
        var attack := NonEmotionalPipeline(shuffled);
        return Some(attack);
      }
      return None;
    }
  }

  /** The search runs exactly when no lexicon entry of the text carries an
      emotion other than positive or negative; the cached top emotions are
      then all eight standard emotions. */
  lemma SearchRunsIff(attack: ManualAttack)
    requires attack.affectFreqs == FreqTable(attack.libs.nrcLex(attack.text))
    requires attack.topEmotions == NrcTopEmotions(attack.libs.nrcLex(attack.text))
    ensures attack.TargetWordsPrio() == [] <==>
              forall i, v :: 0 <= i < |attack.libs.nrcLex(attack.text)| && v in attack.libs.nrcLex(attack.text)[i].emotions ==> v in Sentiments
    ensures attack.TargetWordsPrio() == [] ==> attack.topEmotions == Standard
  {
    var raw := attack.libs.nrcLex(attack.text);
    AffectDictEmptyIff(raw);
    if AffectDict(raw) == [] {
      EmptyAffectTopEmotions(raw);
    }
  }
}
