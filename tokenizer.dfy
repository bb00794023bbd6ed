/** Model of tokenizer.py: the left-to-right tokenizer, the word-frequency
    counter, and the descending-by-count ranking that `print_tokens` prints. */
module Tokenizer {
  import opened Text

  // ---------------------------------------------------------------------------
  // Tokenizing
  // ---------------------------------------------------------------------------

  /** A normalized token: non-empty, lower-case ASCII letters and digits only. */
  predicate IsWord(t: string) {
    t != [] && forall i :: 0 <= i < |t| ==> IsLowerAlnum(t[i])
  }

  /** The state of the scan after a prefix of the text: the tokens emitted so
      far and the pending run of characters (`cache` in `tokenize`). */
  datatype ScanState = ScanState(tokens: seq<string>, cache: string)

  /** The characters of all tokens, concatenated in order. */
  function Concat(ts: seq<string>): (r: string) {
    if ts == [] then [] else Concat(ts[..|ts| - 1]) + ts[|ts| - 1]
  }

  /** The lower-cased ASCII letters and digits of `s`, in order; every other
      character dropped. */
  function Normalized(s: string): (r: string) {
    if s == [] then []
    else Normalized(s[..|s| - 1])
         + (if IsAsciiAlnum(s[|s| - 1]) then [LowerChar(s[|s| - 1])] else [])
  }

  /** The emitted tokens are words and the pending run holds only lower-case
      letters and digits. */
  predicate WellFormed(st: ScanState) {
    && (forall t :: t in st.tokens ==> IsWord(t))
    && (forall i :: 0 <= i < |st.cache| ==> IsLowerAlnum(st.cache[i]))
  }

  /** One iteration of the scan over character `c`: tokens already emitted are
      kept, at most one is added, the pending run is emptied or grows by `c`
      lower-cased, and a well-formed state stays well-formed. */
  function Step(st: ScanState, c: char): (r: ScanState)
    ensures st.tokens <= r.tokens && |r.tokens| <= |st.tokens| + 1
    ensures r.cache == [] || r.cache == st.cache + [LowerChar(c)]
    ensures WellFormed(st) ==> WellFormed(r)
  {
    if IsAsciiAlnum(c) then ScanState(st.tokens, st.cache + [LowerChar(c)])
    else if st.cache != [] then ScanState(st.tokens + [st.cache], [])
    else st
  }

  /** The characters spelled by the tokens and the pending run grow by `c`
      lower-cased exactly when `c` is an ASCII letter or digit. */
  lemma StepSpells(st: ScanState, c: char)
    ensures Concat(Step(st, c).tokens) + Step(st, c).cache
            == Concat(st.tokens) + st.cache + (if IsAsciiAlnum(c) then [LowerChar(c)] else [])
  {
    if !IsAsciiAlnum(c) && st.cache != [] {
      ConcatSnoc(st.tokens, st.cache);
    }
  }

  /** The scan state after reading all of `s`, one character at a time: the
      emitted tokens are words and the pending run is lower-case letters and
      digits. */
  function Scan(s: string): (r: ScanState)
    ensures WellFormed(r)
    decreases |s|
  {
    if s == [] then ScanState([], []) else Step(Scan(s[..|s| - 1]), s[|s| - 1])
  }

  /** After any prefix, the emitted tokens and the pending run together spell
      the normalized prefix. */
  lemma {:induction false} ScanSpells(s: string)
    ensures Concat(Scan(s).tokens) + Scan(s).cache == Normalized(s)
  {
    if s != [] {
      ScanSpells(s[..|s| - 1]);
      StepSpells(Scan(s[..|s| - 1]), s[|s| - 1]);
    }
  }

  /** The trailing token, if any, is emitted at end of input: the tokens
      emitted so far are kept, at most one is added, and the result spells
      tokens and pending run together. */
  function Flush(st: ScanState): (r: seq<string>)
    ensures st.tokens <= r && |r| <= |st.tokens| + 1
    ensures Concat(r) == Concat(st.tokens) + st.cache
    ensures WellFormed(st) ==> forall t :: t in r ==> IsWord(t)
  {
    if st.cache != [] then
      ConcatSnoc(st.tokens, st.cache);
      st.tokens + [st.cache]
    else st.tokens
  }

  /** The tokens of `text`, the specification of `Tokenize`: every token is a
      word, and the tokens spell the normalized text. */
  function TokensOf(text: string): (r: seq<string>)
    ensures forall t :: t in r ==> IsWord(t)
    ensures Concat(r) == Normalized(text)
  {
    ScanSpells(text);
    Flush(Scan(text))
  }

  /** `tokenize(text)`: a single scan that extends the pending token with each
      lower-cased ASCII letter or digit and ends it at any other character. */
  method Tokenize(text: string) returns (tokens: seq<string>)
    ensures tokens == TokensOf(text)
    ensures forall t :: t in tokens ==> IsWord(t)
    ensures Concat(tokens) == Normalized(text)
    ensures |tokens| <= |text|
  {
    tokens := [];
    var cache: string := [];
    for i := 0 to |text|
      invariant ScanState(tokens, cache) == Scan(text[..i])
    {
      assert text[..i + 1][..i] == text[..i];
      var c := text[i];
      if IsAsciiAlnum(c) {
        cache := cache + [LowerChar(c)];
      } else if cache != [] {
        tokens := tokens + [cache];
        cache := [];
      }
    }
    assert text[..|text|] == text;
    if cache != [] {
      tokens := tokens + [cache];
    }
    TokenCountBound(text);
  }

  lemma ConcatSnoc(ts: seq<string>, t: string)
    ensures Concat(ts + [t]) == Concat(ts) + t
  {
    assert (ts + [t])[..|ts|] == ts;
  }

  /** A sequence of non-empty strings has no more elements than characters. */
  lemma {:induction false} WordCountBound(ts: seq<string>)
    requires forall t :: t in ts ==> t != []
    ensures |ts| <= |Concat(ts)|
  {
    if ts != [] {
      var init := ts[..|ts| - 1];
      assert forall t :: t in init ==> t in ts;
      assert ts[|ts| - 1] in ts;
      WordCountBound(init);
    }
  }

  lemma {:induction false} NormalizedBound(s: string)
    ensures |Normalized(s)| <= |s|
  {
    if s != [] {
      NormalizedBound(s[..|s| - 1]);
    }
  }

  /** The normalized text is empty exactly when the text has no ASCII letter
      or digit. */
  lemma {:induction false} NormalizedEmpty(s: string)
    ensures Normalized(s) == [] <==> forall i :: 0 <= i < |s| ==> !IsAsciiAlnum(s[i])
  {
    if s != [] {
      var p := s[..|s| - 1];
      NormalizedEmpty(p);
      assert forall i :: 0 <= i < |p| ==> p[i] == s[i];
    }
  }

  /** There are never more tokens than characters. */
  lemma TokenCountBound(text: string)
    ensures |TokensOf(text)| <= |text|
  {
    WordCountBound(TokensOf(text));
    NormalizedBound(text);
  }

  /** A text yields no tokens exactly when it has no ASCII letter or digit. */
  lemma NoTokensIffNoAlnum(text: string)
    ensures TokensOf(text) == [] <==> forall i :: 0 <= i < |text| ==> !IsAsciiAlnum(text[i])
  {
    NormalizedEmpty(text);
    WordCountBound(TokensOf(text));
  }

  // ---------------------------------------------------------------------------
  // Round trip through a space-separated rendering
  // ---------------------------------------------------------------------------

  /** `" ".join(ts)` */
  function Join(ts: seq<string>): (r: string) {
    if ts == [] then []
    else if |ts| == 1 then ts[0]
    else Join(ts[..|ts| - 1]) + " " + ts[|ts| - 1]
  }

  /** Reading a run of lower-case letters and digits only extends the pending
      token. */
  lemma {:induction false} ScanAppendRun(p: string, w: string)
    requires forall i :: 0 <= i < |w| ==> IsLowerAlnum(w[i])
    ensures Scan(p + w) == ScanState(Scan(p).tokens, Scan(p).cache + w)
    decreases |w|
  {
    if w == [] {
      assert p + w == p;
      assert Scan(p).cache + w == Scan(p).cache;
    } else {
      var w' := w[..|w| - 1];
      var c := w[|w| - 1];
      assert (p + w)[..|p + w| - 1] == p + w';
      assert (p + w)[|p + w| - 1] == c;
      ScanAppendRun(p, w');
      assert IsLowerAlnum(c) && LowerChar(c) == c;
      assert Scan(p + w) == Step(Scan(p + w'), c);
      assert Scan(p).cache + w' + [w[|w| - 1]] == Scan(p).cache + w;
    }
  }

  /** A space ends the pending token: it is emitted, and nothing is pending. */
  lemma ScanSpace(p: string)
    ensures Scan(p + " ") == ScanState(Flush(Scan(p)), [])
  {
    var q := p + " ";
    assert q[..|q| - 1] == p;
    assert q[|q| - 1] == ' ';
    assert !IsAsciiAlnum(' ');
    assert Scan(q) == Step(Scan(p), ' ');
  }

  /** One more word after a space: the word that was pending is emitted and
      the new one becomes pending. */
  lemma ScanJoinStep(done: seq<string>, pending: string, next: string)
    requires pending != []
    requires Scan(Join(done + [pending])) == ScanState(done, pending)
    requires forall i :: 0 <= i < |next| ==> IsLowerAlnum(next[i])
    ensures Scan(Join(done + [pending] + [next])) == ScanState(done + [pending], next)
  {
    var init := done + [pending];
    var head := Join(init) + " ";
    ScanSpace(Join(init));
    assert Scan(head) == ScanState(init, []);
    ScanAppendRun(head, next);
    var ts := init + [next];
    assert ts[..|ts| - 1] == init;
    assert Join(ts) == head + next;
    assert [] + next == next;
  }

  /** After the joined text of at least one word, all but the last word have
      been emitted and the last one is pending. */
  lemma {:induction false} ScanJoin(ts: seq<string>)
    requires ts != []
    requires forall t :: t in ts ==> IsWord(t)
    ensures Scan(Join(ts)) == ScanState(ts[..|ts| - 1], ts[|ts| - 1])
  {
    var last := ts[|ts| - 1];
    assert last in ts;
    if |ts| == 1 {
      ScanAppendRun([], last);
      assert [] + last == last;
    } else {
      var init := ts[..|ts| - 1];
      assert forall t :: t in init ==> t in ts;
      ScanJoin(init);
      var done, pending := init[..|init| - 1], init[|init| - 1];
      assert pending in ts;
      assert done + [pending] == init;
      assert init + [last] == ts;
      ScanJoinStep(done, pending, last);
    }
  }

  /** Tokenizing the tokens joined with single spaces gives back the tokens. */
  lemma TokenizeJoinRoundTrip(ts: seq<string>)
    requires forall t :: t in ts ==> IsWord(t)
    ensures TokensOf(Join(ts)) == ts
  {
    if ts != [] {
      var init, last := ts[..|ts| - 1], ts[|ts| - 1];
      assert last in ts;
      ScanJoin(ts);
      assert TokensOf(Join(ts)) == Flush(ScanState(init, last));
      assert Flush(ScanState(init, last)) == init + [last];
      assert init + [last] == ts;
    }
  }

  // ---------------------------------------------------------------------------
  // Word frequencies
  // ---------------------------------------------------------------------------

  /** The frequency table of `tokens`: one key per distinct token, mapped to
      its number of occurrences, which is at least 1 and at most the number
      of tokens. */
  function Frequencies(tokens: seq<string>): (r: map<string, nat>)
    ensures forall t :: t in r <==> t in tokens
    ensures forall t :: t in r ==> 1 <= r[t] <= |tokens|
  {
    map t | t in tokens :: multiset(tokens)[t]
  }

  /** `compute_word_frequencies(tokens)`: a counting loop into a dictionary. */
  method ComputeWordFrequencies(tokens: seq<string>) returns (words: map<string, nat>)
    ensures forall t :: t in words <==> t in tokens
    ensures forall t :: t in words ==> words[t] == multiset(tokens)[t]
    ensures words == Frequencies(tokens)
  {
    words := map[];
    for i := 0 to |tokens|
      invariant forall t :: t in words <==> t in tokens[..i]
      invariant forall t :: t in words ==> words[t] == multiset(tokens[..i])[t]
    {
      assert tokens[..i + 1] == tokens[..i] + [tokens[i]];
      var token := tokens[i];
      if token in words {
        words := words[token := words[token] + 1];
      } else {
        words := words[token := 1];
      }
    }
    assert tokens[..|tokens|] == tokens;
  }

  /** The sum of the counts of a frequency table. */
  ghost function Total(m: map<string, nat>): (r: nat)
    decreases m.Keys
  {
    if m == map[] then 0
    else
      var k :| k in m;
      assert (m - {k}).Keys < m.Keys;
      m[k] + Total(m - {k})
  }

  /** `Total` may take the keys out in any order. */
  lemma {:induction false} TotalRemove(m: map<string, nat>, k: string)
    requires k in m
    ensures Total(m) == m[k] + Total(m - {k})
    decreases m.Keys
  {
    var j :| j in m && Total(m) == m[j] + Total(m - {j});
    if j != k {
      assert (m - {j}).Keys < m.Keys;
      assert (m - {k}).Keys < m.Keys;
      TotalRemove(m - {j}, k);
      TotalRemove(m - {k}, j);
      assert m - {j} - {k} == m - {k} - {j};
    }
  }

  /** One more token adds one to its count, or makes it a key with count 1. */
  lemma FrequenciesSnoc(p: seq<string>, t: string)
    ensures Frequencies(p + [t]) == Frequencies(p)[t := multiset(p)[t] + 1]
  {
    var after := Frequencies(p + [t]);
    var expected := Frequencies(p)[t := multiset(p)[t] + 1];
    assert multiset(p + [t]) == multiset(p) + multiset{t};
    assert forall x :: x in p + [t] <==> x in p || x == t;
    assert after.Keys == expected.Keys;
  }

  /** Raising one key's count by one raises the total by one. */
  lemma TotalUpdate(before: map<string, nat>, t: string, n: nat)
    requires t in before ==> before[t] + 1 == n
    requires t !in before ==> n == 1
    ensures Total(before[t := n]) == Total(before) + 1
  {
    var after := before[t := n];
    TotalRemove(after, t);
    if t in before {
      TotalRemove(before, t);
      assert after - {t} == before - {t};
    } else {
      assert after - {t} == before;
    }
  }

  /** The counts of the frequency table add up to the number of tokens. */
  lemma {:induction false} FrequenciesTotal(tokens: seq<string>)
    ensures Total(Frequencies(tokens)) == |tokens|
  {
    if tokens != [] {
      var p := tokens[..|tokens| - 1];
      var t := tokens[|tokens| - 1];
      assert tokens == p + [t];
      FrequenciesTotal(p);
      FrequenciesSnoc(p, t);
      var before := Frequencies(p);
      assert t in before <==> t in p;
      assert t !in p ==> multiset(p)[t] == 0;
      TotalUpdate(before, t, multiset(p)[t] + 1);
    }
  }

  // ---------------------------------------------------------------------------
  // Ranking by count (`print_tokens`)
  // ---------------------------------------------------------------------------

  type Entry = (string, nat)

  /** Counts never increase from left to right. */
  predicate ByCountDescending(s: seq<Entry>) {
    forall i, j :: 0 <= i < j < |s| ==> s[i].1 >= s[j].1
  }

  /** Inserts `e` after every entry whose count is at least `e`'s, so entries
      with equal counts keep the order in which they were inserted. */
  method InsertByCount(sorted: seq<Entry>, e: Entry) returns (r: seq<Entry>)
    requires ByCountDescending(sorted)
    ensures ByCountDescending(r)
    ensures multiset(r) == multiset(sorted) + multiset{e}
  {
    var i := 0;
    while i < |sorted| && sorted[i].1 >= e.1
      invariant 0 <= i <= |sorted|
      invariant forall j :: 0 <= j < i ==> sorted[j].1 >= e.1
    {
      i := i + 1;
    }
    r := sorted[..i] + [e] + sorted[i..];
    assert sorted == sorted[..i] + sorted[i..];
  }

  /** The sort in `print_tokens`: the entries of the frequency table ordered by
      count, largest first. */
  method RankTokens(frequencies: map<string, nat>) returns (ranked: seq<Entry>)
    ensures multiset(ranked) == multiset(frequencies.Items)
    ensures ByCountDescending(ranked)
  {
    ranked := [];
    var rest := frequencies.Keys;
    ghost var done: set<Entry> := {};
    while rest != {}
      invariant rest <= frequencies.Keys
      invariant forall e :: e in done <==> e in frequencies.Items && e.0 !in rest
      invariant multiset(ranked) == multiset(done)
      invariant ByCountDescending(ranked)
      decreases rest
    {
      var k :| k in rest;
      var e := (k, frequencies[k]);
      assert e in frequencies.Items;
      ranked := InsertByCount(ranked, e);
      assert e !in done;
      assert multiset(done + {e}) == multiset(done) + multiset{e};
      done := done + {e};
      rest := rest - {k};
    }
    assert done == frequencies.Items;
  }
}
