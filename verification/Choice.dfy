// The first discrete choice mentioned in a free-text answer, matched on word boundaries.
module Choice {
  import opened Options

  /** One vocabulary entry: a label and the synonyms that stand for it. */
  datatype Entry = Entry(name: string, synonyms: seq<string>)

  /** The best match so far: where it starts, how long its synonym is, and the label it stands for. */
  datatype Match = Match(pos: nat, len: nat, name: string)

  // ---- text ----

  predicate IsWordChar(c: char) {
    '0' <= c <= '9' || 'a' <= c <= 'z' || 'A' <= c <= 'Z'
  }

  function LowerChar(c: char): char {
    if 'A' <= c <= 'Z' then ((c as int) + 32) as char else c
  }

  function Lowercase(s: string): (r: string)
    ensures |r| == |s|
  {
    seq(|s|, i requires 0 <= i < |s| => LowerChar(s[i]))
  }

  const UPPER := "ABCDEFGHIJKLMNOPQRSTUVWXYZ"

  const LOWER := "abcdefghijklmnopqrstuvwxyz"

  const DIGITS := "0123456789"

  /** Lowercasing maps each capital to its small letter and keeps every other character. */
  lemma LowercaseLetters(c: char)
    ensures forall k :: 0 <= k < 26 ==> LowerChar(UPPER[k]) == LOWER[k]
    ensures c !in UPPER ==> LowerChar(c) == c
  {
    UpperCodes(c);
    LowerCodes(c);
  }

  lemma UpperCodes(c: char)
    ensures |UPPER| == 26 && forall k :: 0 <= k < 26 ==> UPPER[k] as int == 65 + k
    ensures c in UPPER <==> 'A' <= c <= 'Z'
  {
    if 'A' <= c <= 'Z' {
      assert UPPER[c as int - 65] == c;
    }
  }

  lemma LowerCodes(c: char)
    ensures |LOWER| == 26 && forall k :: 0 <= k < 26 ==> LOWER[k] as int == 97 + k
    ensures c in LOWER <==> 'a' <= c <= 'z'
  {
    if 'a' <= c <= 'z' {
      assert LOWER[c as int - 97] == c;
    }
  }

  lemma DigitCodes(c: char)
    ensures c in DIGITS <==> '0' <= c <= '9'
  {
    assert forall k :: 0 <= k < 10 ==> DIGITS[k] as int == 48 + k;
    if '0' <= c <= '9' {
      assert DIGITS[c as int - 48] == c;
    }
  }

  /** The characters of words are the letters and the digits. */
  lemma WordChars(c: char)
    ensures IsWordChar(c) <==> c in UPPER || c in LOWER || c in DIGITS
  {
    UpperCodes(c);
    LowerCodes(c);
    DigitCodes(c);
  }

  predicate OccursAt(hay: string, needle: string, i: nat) {
    i + |needle| <= |hay| && hay[i..i + |needle|] == needle
  }

  /** `needle` stands at `i` and neither side continues a word. */
  predicate BoundedAt(hay: string, needle: string, i: nat) {
    && OccursAt(hay, needle, i)
    && (i == 0 || !IsWordChar(hay[i - 1]))
    && (i + |needle| == |hay| || !IsWordChar(hay[i + |needle|]))
  }

  /** Between `a` and `b` a needle is bounded exactly when neither touches it with a letter or digit. */
  lemma BoundedBetween(a: string, needle: string, b: string)
    ensures BoundedAt(a + needle + b, needle, |a|) <==>
            && (a == "" || (a[|a| - 1] !in UPPER && a[|a| - 1] !in LOWER && a[|a| - 1] !in DIGITS))
            && (b == "" || (b[0] !in UPPER && b[0] !in LOWER && b[0] !in DIGITS))
  {
    var hay := a + needle + b;
    assert hay[|a|..|a| + |needle|] == needle;
    if a != "" {
      assert hay[|a| - 1] == a[|a| - 1];
      WordChars(a[|a| - 1]);
    }
    if b != "" {
      assert hay[|a| + |needle|] == b[0];
      WordChars(b[0]);
    }
  }

  /** The first occurrence at or after `from`: the library's substring search. */
  method Find(hay: string, needle: string, from: nat) returns (at: Option<nat>)
    requires from <= |hay|
    ensures at.None? ==> forall i: nat | from <= i :: !OccursAt(hay, needle, i)
    ensures at.Some? ==> from <= at.value && OccursAt(hay, needle, at.value)
    ensures at.Some? ==> forall i: nat | from <= i < at.value :: !OccursAt(hay, needle, i)
  {
    var i := from;
    while i + |needle| <= |hay|
      invariant from <= i
      invariant forall j: nat | from <= j < i :: !OccursAt(hay, needle, j)
    {
      if hay[i..i + |needle|] == needle {
        return Some(i);
      }
      i := i + 1;
    }
    return None;
  }

  /** The first bounded occurrence, or none when there is none: the search ends and misses nothing. */
  method FindOnWordBoundary(hay: string, needle: string) returns (at: Option<nat>)
    requires needle != ""
    ensures at.None? ==> forall i: nat :: !BoundedAt(hay, needle, i)
    ensures at.Some? ==> BoundedAt(hay, needle, at.value)
    ensures at.Some? ==> forall i: nat | i < at.value :: !BoundedAt(hay, needle, i)
  {
    var from := 0;
    var found := Find(hay, needle, from);
    while found.Some?
      invariant from <= |hay|
      invariant found.None? ==> forall i: nat | from <= i :: !OccursAt(hay, needle, i)
      invariant found.Some? ==> from <= found.value && OccursAt(hay, needle, found.value)
      invariant found.Some? ==> forall i: nat | from <= i < found.value :: !OccursAt(hay, needle, i)
      invariant forall i: nat | i < from :: !BoundedAt(hay, needle, i)
      decreases |hay| - from, if found.Some? then 1 else 0
    {
      var start := found.value;
      var end := start + |needle|;
      var leftOk := start == 0 || !IsWordChar(hay[start - 1]);
      var rightOk := end >= |hay| || !IsWordChar(hay[end]);
      if leftOk && rightOk {
        return Some(start);
      }
      from := start + 1;
      found := Find(hay, needle, from);
    }
    return None;
  }

  // ---- the answer ----

  /** Some non-empty synonym of an entry stands at `i`, on word boundaries. */
  ghost predicate Mentioned(hay: string, vocab: seq<Entry>, e: nat, s: nat, i: nat) {
    && e < |vocab| && s < |vocab[e].synonyms| && vocab[e].synonyms[s] != ""
    && BoundedAt(hay, Lowercase(vocab[e].synonyms[s]), i)
  }

  /** Listing order of synonyms. */
  predicate Before(e: nat, s: nat, e': nat, s': nat) {
    e < e' || (e == e' && s < s')
  }

  /** Earlier in the text, or longer at the same place. */
  predicate Precedes(i: nat, len: nat, j: nat, len': nat) {
    i < j || (i == j && len > len')
  }

  ghost function Len(vocab: seq<Entry>, e: nat, s: nat): nat
    requires e < |vocab| && s < |vocab[e].synonyms|
  {
    |vocab[e].synonyms[s]|
  }

  /** The mention of synonym (e, s) at `i` is preceded by none of those listed before (eEnd, sEnd), and
      precedes all of them that are listed before itself. */
  ghost predicate WinsAmong(hay: string, vocab: seq<Entry>, eEnd: nat, sEnd: nat, e: nat, s: nat, i: nat) {
    && Before(e, s, eEnd, sEnd)
    && Mentioned(hay, vocab, e, s, i)
    && (forall e': nat, s': nat, j: nat | Before(e', s', eEnd, sEnd) && Mentioned(hay, vocab, e', s', j) ::
          && !Precedes(j, Len(vocab, e', s'), i, Len(vocab, e, s))
          && (Before(e', s', e, s) ==> Precedes(i, Len(vocab, e, s), j, Len(vocab, e', s'))))
  }

  ghost predicate Wins(hay: string, vocab: seq<Entry>, e: nat, s: nat, i: nat) {
    WinsAmong(hay, vocab, |vocab|, 0, e, s, i)
  }

  /** The answer for a lowercased text: the name of the earliest mention, the longest on a tie and then the
      first listed; none when nothing is mentioned. */
  ghost predicate Answers(hay: string, vocab: seq<Entry>, choice: Option<string>) {
    && (choice.None? ==> forall e: nat, s: nat, i: nat :: !Mentioned(hay, vocab, e, s, i))
    && (choice.Some? ==> exists e: nat, s: nat, i: nat :: Wins(hay, vocab, e, s, i) && vocab[e].name == choice.value)
  }

  /** `best` is the winner among the synonyms listed before (e, s). */
  ghost predicate BestSoFar(hay: string, vocab: seq<Entry>, e: nat, s: nat, best: Option<Match>, be: nat, bs: nat) {
    if best.None? then forall e': nat, s': nat, j: nat | Before(e', s', e, s) :: !Mentioned(hay, vocab, e', s', j)
    else
      && WinsAmong(hay, vocab, e, s, be, bs, best.value.pos)
      && best.value.len == Len(vocab, be, bs) && best.value.name == vocab[be].name
  }

  /** The next match replaces the best one when it is strictly better. */
  function Better(best: Option<Match>, pos: nat, len: nat): bool {
    best.None? || pos < best.value.pos || (pos == best.value.pos && len > best.value.len)
  }

  method ExtractFirstChoice(text: string, vocab: seq<Entry>) returns (choice: Option<string>)
    ensures Answers(Lowercase(text), vocab, choice)
  {
    var hay := Lowercase(text);
    var best: Option<Match> := None;
    ghost var be: nat, bs: nat := 0, 0;
    for e := 0 to |vocab|
      invariant BestSoFar(hay, vocab, e, 0, best, be, bs)
    {
      var synonyms := vocab[e].synonyms;
      for s := 0 to |synonyms|
        invariant BestSoFar(hay, vocab, e, s, best, be, bs)
      {
        var found := None;
        if synonyms[s] != "" {
          found := FindOnWordBoundary(hay, Lowercase(synonyms[s]));
        }
        NextSynonym(hay, vocab, e, s, best, be, bs, found);
        if found.Some? && Better(best, found.value, |synonyms[s]|) {
          best := Some(Match(found.value, |synonyms[s]|, vocab[e].name));
          be, bs := e, s;
        }
      }
      NextEntry(hay, vocab, e, best, be, bs);
    }
    choice := if best.Some? then Some(best.value.name) else None;
    assert best.Some? ==> Wins(hay, vocab, be, bs, best.value.pos);
  }

  /** Taking the next synonym's first bounded occurrence into account keeps `best` the winner. */
  lemma {:induction false} NextSynonym(
    hay: string, vocab: seq<Entry>, e: nat, s: nat, best: Option<Match>, be: nat, bs: nat, found: Option<nat>)
    requires BestSoFar(hay, vocab, e, s, best, be, bs)
    requires e < |vocab| && s < |vocab[e].synonyms|
    requires found.None? ==> forall i: nat :: !Mentioned(hay, vocab, e, s, i)
    requires found.Some? ==> Mentioned(hay, vocab, e, s, found.value)
    requires found.Some? ==> forall i: nat | i < found.value :: !Mentioned(hay, vocab, e, s, i)
    ensures if found.Some? && Better(best, found.value, Len(vocab, e, s))
            then BestSoFar(hay, vocab, e, s + 1, Some(Match(found.value, Len(vocab, e, s), vocab[e].name)), e, s)
            else BestSoFar(hay, vocab, e, s + 1, best, be, bs)
  {
    hide Mentioned;
    assert forall e': nat, s': nat :: Before(e', s', e, s + 1) <==> Before(e', s', e, s) || (e' == e && s' == s);
  }

  lemma {:induction false} NextEntry(hay: string, vocab: seq<Entry>, e: nat, best: Option<Match>, be: nat, bs: nat)
    requires e < |vocab| && BestSoFar(hay, vocab, e, |vocab[e].synonyms|, best, be, bs)
    ensures BestSoFar(hay, vocab, e + 1, 0, best, be, bs)
  {
    assert forall e': nat, s': nat, j: nat | Before(e', s', e + 1, 0) && Mentioned(hay, vocab, e', s', j) ::
        Before(e', s', e, |vocab[e].synonyms|);
  }

  // ---- order of the vocabulary ----

  /** `word` is a lowercased non-empty synonym of the label `name`. */
  ghost predicate Stands(vocab: seq<Entry>, name: string, word: string) {
    exists e: nat, s: nat :: Listed(vocab, e, s, name, word)
  }

  ghost predicate Listed(vocab: seq<Entry>, e: nat, s: nat, name: string, word: string) {
    && e < |vocab| && s < |vocab[e].synonyms| && vocab[e].synonyms[s] != ""
    && vocab[e].name == name && Lowercase(vocab[e].synonyms[s]) == word
  }

  /** No lowercased synonym is shared by two labels. */
  ghost predicate Unshared(vocab: seq<Entry>) {
    forall l, l', word | Stands(vocab, l, word) && Stands(vocab, l', word) :: l == l'
  }

  /** The same synonyms for the same labels, in whatever order and grouping. */
  ghost predicate SameVocabulary(v: seq<Entry>, w: seq<Entry>) {
    forall name, word :: Stands(v, name, word) <==> Stands(w, name, word)
  }

  /** Reordering labels, and synonyms within a label, keeps what stands for what. */
  lemma {:induction false} ReorderedSameVocabulary(v: seq<Entry>, mid: seq<Entry>, w: seq<Entry>)
    requires multiset(v) == multiset(mid) && |mid| == |w|
    requires forall e :: 0 <= e < |w| ==> w[e].name == mid[e].name && multiset(w[e].synonyms) == multiset(mid[e].synonyms)
    ensures SameVocabulary(v, w)
  {
    forall name, word ensures Stands(v, name, word) <==> Stands(w, name, word) {
      if e: nat, s: nat :| Listed(v, e, s, name, word) {
        assert v[e] in multiset(mid);
        var e' :| 0 <= e' < |mid| && mid[e'] == v[e];
        var x := v[e].synonyms[s];
        assert x in multiset(w[e'].synonyms);
        var s' :| 0 <= s' < |w[e'].synonyms| && w[e'].synonyms[s'] == x;
        assert Listed(w, e', s', name, word);
      }
      if e: nat, s: nat :| Listed(w, e, s, name, word) {
        var x := w[e].synonyms[s];
        assert x in multiset(mid[e].synonyms);
        var s' :| 0 <= s' < |mid[e].synonyms| && mid[e].synonyms[s'] == x;
        assert mid[e] in multiset(v);
        var e' :| 0 <= e' < |v| && v[e'] == mid[e];
        assert Listed(v, e', s', name, word);
      }
    }
  }

  /** What is mentioned under one listing is mentioned under the other, with the same length and label. */
  lemma {:induction false} MentionCarries(hay: string, v: seq<Entry>, w: seq<Entry>, e: nat, s: nat, i: nat) returns (e': nat, s': nat)
    requires SameVocabulary(v, w) && Mentioned(hay, v, e, s, i)
    ensures Mentioned(hay, w, e', s', i) && Len(w, e', s') == Len(v, e, s) && w[e'].name == v[e].name
    ensures Lowercase(w[e'].synonyms[s']) == Lowercase(v[e].synonyms[s])
  {
    var word := Lowercase(v[e].synonyms[s]);
    assert Listed(v, e, s, v[e].name, word);
    assert Stands(w, v[e].name, word);
    e', s' :| Listed(w, e', s', v[e].name, word);
  }

  /** With unshared synonyms the answer does not depend on the order of labels or synonyms. */
  lemma {:induction false} OrderIrrelevant(hay: string, v: seq<Entry>, w: seq<Entry>, r: Option<string>, q: Option<string>)
    requires SameVocabulary(v, w) && Unshared(v)
    requires Answers(hay, v, r) && Answers(hay, w, q)
    ensures r == q
  {
    if r.Some? {
      var e: nat, s: nat, i: nat :| Wins(hay, v, e, s, i) && v[e].name == r.value;
      var e1, s1 := MentionCarries(hay, v, w, e, s, i);
      assert q.Some?;
      var f: nat, t: nat, j: nat :| Wins(hay, w, f, t, j) && w[f].name == q.value;
      var f1, t1 := MentionCarries(hay, w, v, f, t, j);
      SameWord(hay, v, e, s, f1, t1, i, j);
    } else if q.Some? {
      var f: nat, t: nat, j: nat :| Wins(hay, w, f, t, j) && w[f].name == q.value;
      var f1, t1 := MentionCarries(hay, w, v, f, t, j);
    }
  }

  /** Two mentions of which neither precedes the other are the same word. */
  lemma {:induction false} SameWord(hay: string, v: seq<Entry>, e: nat, s: nat, f: nat, t: nat, i: nat, j: nat)
    requires Mentioned(hay, v, e, s, i) && Mentioned(hay, v, f, t, j)
    requires !Precedes(i, Len(v, e, s), j, Len(v, f, t)) && !Precedes(j, Len(v, f, t), i, Len(v, e, s))
    requires Unshared(v)
    ensures v[e].name == v[f].name
  {
    var word := Lowercase(v[e].synonyms[s]);
    assert Listed(v, e, s, v[e].name, word) && Listed(v, f, t, v[f].name, word);
    assert Stands(v, v[e].name, word) && Stands(v, v[f].name, word);
  }

  lemma {:induction false} LeastMention(hay: string, vocab: seq<Entry>, e: nat, s: nat, i: nat) returns (first: nat)
    requires Mentioned(hay, vocab, e, s, i)
    ensures Mentioned(hay, vocab, e, s, first)
    ensures forall j: nat | j < first :: !Mentioned(hay, vocab, e, s, j)
  {
    if j: nat :| j < i && Mentioned(hay, vocab, e, s, j) {
      first := LeastMention(hay, vocab, e, s, j);
    } else {
      first := i;
    }
  }

  lemma {:induction false} WinnerExists(hay: string, vocab: seq<Entry>, e: nat, s: nat) returns (best: Option<Match>, be: nat, bs: nat)
    requires if e < |vocab| then s <= |vocab[e].synonyms| else e == |vocab| && s == 0
    ensures BestSoFar(hay, vocab, e, s, best, be, bs)
    decreases e, s
  {
    if s > 0 {
      var t := s - 1;
      best, be, bs := WinnerExists(hay, vocab, e, t);
      var found := None;
      if i: nat :| Mentioned(hay, vocab, e, t, i) {
        var first := LeastMention(hay, vocab, e, t, i);
        found := Some(first);
      }
      NextSynonym(hay, vocab, e, t, best, be, bs, found);
      if found.Some? && Better(best, found.value, Len(vocab, e, t)) {
        best, be, bs := Some(Match(found.value, Len(vocab, e, t), vocab[e].name)), e, t;
      }
    } else if e > 0 {
      best, be, bs := WinnerExists(hay, vocab, e - 1, |vocab[e - 1].synonyms|);
      NextEntry(hay, vocab, e - 1, best, be, bs);
    } else {
      best, be, bs := None, 0, 0;
    }
  }

  lemma {:induction false} AnswerExists(hay: string, vocab: seq<Entry>) returns (r: Option<string>)
    ensures Answers(hay, vocab, r)
  {
    var best, be, bs := WinnerExists(hay, vocab, |vocab|, 0);
    r := if best.Some? then Some(best.value.name) else None;
    assert best.Some? ==> Wins(hay, vocab, be, bs, best.value.pos);
  }

  /** An entry listed first wins on the text that is one of its synonyms. */
  lemma {:induction false} FirstListedWins(vocab: seq<Entry>, s: nat, word: string, r: Option<string>)
    requires vocab != [] && Listed(vocab, 0, s, vocab[0].name, word)
    requires Answers(word, vocab, r)
    ensures r == Some(vocab[0].name)
  {
    assert word[0..0 + |word|] == word;
    assert Mentioned(word, vocab, 0, s, 0);
    var e: nat, t: nat, i: nat :| Wins(word, vocab, e, t, i) && vocab[e].name == r.value;
    assert Before(0, s, |vocab|, 0);
  }

  /** Every reordering of the labels gives the same answer on every text. */
  ghost predicate OrderIndependent(v: seq<Entry>) {
    forall text, w, r, q | multiset(w) == multiset(v) && Answers(Lowercase(text), v, r) && Answers(Lowercase(text), w, q) :: r == q
  }

  function ToFront(v: seq<Entry>, e: nat): seq<Entry>
    requires e < |v|
  {
    [v[e]] + v[..e] + v[e + 1..]
  }

  lemma {:induction false} ToFrontReorders(v: seq<Entry>, e: nat)
    requires e < |v|
    ensures multiset(ToFront(v, e)) == multiset(v)
  {
    assert v == v[..e] + [v[e]] + v[e + 1..];
  }

  /** With one of a shared synonym's labels listed first, the answer on that synonym is that label. */
  lemma {:induction false} FrontAnswer(v: seq<Entry>, e: nat, s: nat, word: string) returns (r: Option<string>)
    requires e < |v| && Listed(v, e, s, v[e].name, word)
    ensures Answers(word, ToFront(v, e), r) && r == Some(v[e].name)
  {
    var w := ToFront(v, e);
    r := AnswerExists(word, w);
    assert w[0] == v[e];
    assert Listed(w, 0, s, w[0].name, word);
    FirstListedWins(w, s, word, r);
  }

  /** A shared synonym makes the answer depend on which of its labels is listed first. */
  lemma {:induction false} SharedDependsOnOrder(v: seq<Entry>, e: nat, s: nat, f: nat, t: nat, word: string)
    requires e < |v| && f < |v| && v[e].name != v[f].name
    requires Listed(v, e, s, v[e].name, word) && Listed(v, f, t, v[f].name, word)
    ensures !OrderIndependent(v)
  {
    var text := v[e].synonyms[s];
    assert Lowercase(text) == word;
    var r := AnswerExists(word, v);
    var p := FrontAnswer(v, e, s, word);
    var q := FrontAnswer(v, f, t, word);
    ToFrontReorders(v, e);
    ToFrontReorders(v, f);
    hide Answers, ToFront, Lowercase;
    assert r != p || r != q;
    assert Answers(Lowercase(text), v, r) && Answers(Lowercase(text), ToFront(v, e), p) && Answers(Lowercase(text), ToFront(v, f), q);
  }

  /** The answer does not depend on the order of the labels exactly when no synonym is shared. */
  lemma {:induction false} OrderIndependentIff(v: seq<Entry>)
    ensures OrderIndependent(v) <==> Unshared(v)
  {
    if Unshared(v) {
      forall text, w, r, q | multiset(w) == multiset(v) && Answers(Lowercase(text), v, r) && Answers(Lowercase(text), w, q)
        ensures r == q
      {
        ReorderedSameVocabulary(v, w, w);
        OrderIrrelevant(Lowercase(text), v, w, r, q);
      }
    } else {
      var l, l', word :| Stands(v, l, word) && Stands(v, l', word) && l != l';
      var e: nat, s: nat :| Listed(v, e, s, l, word);
      var f: nat, t: nat :| Listed(v, f, t, l', word);
      SharedDependsOnOrder(v, e, s, f, t, word);
    }
  }
}
