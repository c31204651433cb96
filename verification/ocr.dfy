/**
  The text side of the local OCR fallback: reading the five answer options
  and the question stem out of recognised text. Running the recogniser itself
  is an input of the callers.
 */
module Ocr {
  import opened Wrappers
  import opened Seqs
  import opened Text
  import opened Questions

  // ---------------------------------------------------------------------------
  // Options

  /** The option letters, in order. */
  const Keys: seq<char> := ['A', 'B', 'C', 'D', 'E']

  /** `key in 'ABCDE'` for a one-letter key. */
  predicate IsLetter(c: char) {
    'A' <= c <= 'E'
  }

  /** The `i`-th option letter. */
  function Letter(i: nat): (c: char)
    requires i < 5
    ensures IsLetter(c)
    ensures forall j :: 0 <= j < i ==> Letter(j) != c
  {
    Keys[i]
  }

  /** The keys of the five options are exactly the letters. */
  lemma KeysAreLetters()
    ensures forall k :: k in Keys <==> IsLetter(k)
  {
    forall k | IsLetter(k) ensures k in Keys {
      assert k == 'A' || k == 'B' || k == 'C' || k == 'D' || k == 'E';
    }
  }

  /** The longest option text kept. */
  const MaxOption: nat := 500

  /** One match of an option pattern: the letter group and the text group. */
  datatype AltMatch = AltMatch(key: char, value: string)

  /** `value.strip()[:500]`. */
  function Clean(value: string): (r: string)
    ensures |r| <= MaxOption
    ensures r <= Strip(value)
    ensures |Strip(value)| <= MaxOption ==> r == Strip(value)
    ensures |Strip(value)| > MaxOption ==> |r| == MaxOption
  {
    Take(Strip(value), MaxOption)
  }

  /**
    The inner loop over one pattern's matches: each match with a letter key
    writes its cleaned text under that key, a later write overwriting an
    earlier one.
   */
  function Record(acc: map<char, string>, ms: seq<AltMatch>): (r: map<char, string>)
    ensures acc.Keys <= r.Keys
    ensures forall j :: 0 <= j < |ms| && IsLetter(ms[j].key) ==> ms[j].key in r
    ensures forall k :: k in r ==> (k in acc && r[k] == acc[k]) || exists j :: 0 <= j < |ms| && IsLetter(ms[j].key) && ms[j].key == k && r[k] == Clean(ms[j].value)
    decreases |ms|
  {
    if |ms| == 0 then acc
    else
      var next := if IsLetter(ms[0].key) then acc[ms[0].key := Clean(ms[0].value)] else acc;
      assert forall j :: 1 <= j < |ms| ==> ms[1..][j - 1] == ms[j];
      Record(next, ms[1..])
  }

  /** A key no match writes keeps the value it had. */
  lemma {:induction false} RecordKeepsUntouched(acc: map<char, string>, ms: seq<AltMatch>, k: char)
    requires k in acc
    requires forall j :: 0 <= j < |ms| ==> ms[j].key != k
    ensures Record(acc, ms)[k] == acc[k]
    decreases |ms|
  {
    if |ms| > 0 {
      var next := if IsLetter(ms[0].key) then acc[ms[0].key := Clean(ms[0].value)] else acc;
      RecordKeepsUntouched(next, ms[1..], k);
    }
  }

  /** The last match with a given letter decides that letter's text. */
  lemma {:induction false} RecordLastWriteWins(acc: map<char, string>, ms: seq<AltMatch>, j: nat)
    requires j < |ms| && IsLetter(ms[j].key)
    requires forall j' :: j < j' < |ms| ==> ms[j'].key != ms[j].key
    ensures Record(acc, ms)[ms[j].key] == Clean(ms[j].value)
    decreases |ms|
  {
    var next := if IsLetter(ms[0].key) then acc[ms[0].key := Clean(ms[0].value)] else acc;
    if j == 0 {
      RecordKeepsUntouched(next, ms[1..], ms[0].key);
    } else {
      RecordLastWriteWins(next, ms[1..], j - 1);
    }
  }

  /** A pattern is used when it has three matches or more. */
  predicate Used(ms: seq<AltMatch>) {
    |ms| >= 3
  }

  /** Every letter some match of `ms` carries is a key of `m`. */
  predicate KeysIn(ms: seq<AltMatch>, m: map<char, string>) {
    forall j :: 0 <= j < |ms| && IsLetter(ms[j].key) ==> ms[j].key in m
  }

  /** `v` is the cleaned text of a match of a used pattern whose letter is `k`. */
  predicate FromMatch(lists: seq<seq<AltMatch>>, k: char, v: string) {
    exists i, j :: 0 <= i < |lists| && Used(lists[i]) && 0 <= j < |lists[i]|
      && lists[i][j].key == k && v == Clean(lists[i][j].value)
  }

  /** What an option map may hold: letters only, each with the text of a used match of that letter. */
  predicate Gathered(lists: seq<seq<AltMatch>>, m: map<char, string>) {
    forall k :: k in m ==> IsLetter(k) && FromMatch(lists, k, m[k])
  }

  /** The map after pattern `i` is applied to `acc`. */
  function Apply(acc: map<char, string>, ms: seq<AltMatch>): map<char, string> {
    if Used(ms) then Record(acc, ms) else acc
  }

  /**
    The number of patterns the loop consults from pattern `i` on: it stops
    after the first used pattern that leaves three keys or more.
   */
  function Consulted(acc: map<char, string>, lists: seq<seq<AltMatch>>, i: nat): (c: nat)
    requires i <= |lists|
    ensures i <= c <= |lists|
    decreases |lists| - i
  {
    if i == |lists| then i
    else if Used(lists[i]) && |Record(acc, lists[i])| >= 3 then i + 1
    else Consulted(Apply(acc, lists[i]), lists, i + 1)
  }

  /** The keys of a map stay keys of any larger one. */
  lemma KeysInGrow(ms: seq<AltMatch>, m: map<char, string>, n: map<char, string>)
    requires Used(ms) ==> KeysIn(ms, m)
    requires m.Keys <= n.Keys
    ensures Used(ms) ==> KeysIn(ms, n)
  {
  }

  /** One pattern step only adds keys, and a used pattern adds all its letters. */
  lemma ApplyKeys(acc: map<char, string>, ms: seq<AltMatch>)
    ensures acc.Keys <= Apply(acc, ms).Keys
    ensures Used(ms) ==> KeysIn(ms, Apply(acc, ms))
  {
  }

  /** One pattern step keeps the map gathered, only adds keys, and a used pattern adds all its letters. */
  lemma ApplyGathered(acc: map<char, string>, lists: seq<seq<AltMatch>>, i: nat)
    requires i < |lists| && Gathered(lists, acc)
    ensures Gathered(lists, Apply(acc, lists[i]))
    ensures acc.Keys <= Apply(acc, lists[i]).Keys
    ensures Used(lists[i]) ==> KeysIn(lists[i], Apply(acc, lists[i]))
  {
    if Used(lists[i]) {
      var next := Record(acc, lists[i]);
      forall k | k in next ensures IsLetter(k) && FromMatch(lists, k, next[k]) {
        if !(k in acc && next[k] == acc[k]) {
          var j :| 0 <= j < |lists[i]| && IsLetter(lists[i][j].key) && lists[i][j].key == k && next[k] == Clean(lists[i][j].value);
        }
      }
    }
  }

  /**
    The pattern loop from pattern `i` on: a pattern with three matches or more
    writes its matches into the map, and once such a pattern leaves three
    keys or more the loop stops.
   */
  function Gather(acc: map<char, string>, lists: seq<seq<AltMatch>>, i: nat): (r: map<char, string>)
    requires i <= |lists|
    ensures acc.Keys <= r.Keys
    decreases |lists| - i
  {
    if i == |lists| then acc
    else
      var next := Apply(acc, lists[i]);
      if Used(lists[i]) && |next| >= 3 then next else Gather(next, lists, i + 1)
  }

  /** Every key the loop records holds the text of one of that letter's matches. */
  lemma {:induction false} GatherKeepsGathered(acc: map<char, string>, lists: seq<seq<AltMatch>>, i: nat)
    requires i <= |lists|
    requires Gathered(lists, acc)
    ensures Gathered(lists, Gather(acc, lists, i))
    decreases |lists| - i
  {
    if i < |lists| {
      ApplyGathered(acc, lists, i);
      if !(Used(lists[i]) && |Apply(acc, lists[i])| >= 3) {
        GatherKeepsGathered(Apply(acc, lists[i]), lists, i + 1);
      }
    }
  }

  /** Every letter of a consulted used pattern is a key, and the loop stops early only with three keys. */
  /** Every letter of a used pattern the loop consults is a key of what it gathers. */
  lemma {:induction false} GatherHasKeys(acc: map<char, string>, lists: seq<seq<AltMatch>>, i: nat, p: nat)
    requires i <= |lists| && i <= p < Consulted(acc, lists, i) && Used(lists[p])
    ensures KeysIn(lists[p], Gather(acc, lists, i))
    decreases |lists| - i
  {
    var next := Apply(acc, lists[i]);
    if Used(lists[i]) && |next| >= 3 {
      GatherStops(acc, lists, i);
      ApplyKeys(acc, lists[p]);
    } else {
      GatherGoesOn(acc, lists, i);
      if p == i {
        ApplyKeys(acc, lists[i]);
        KeysInGrow(lists[i], next, Gather(next, lists, i + 1));
      } else {
        GatherHasKeys(next, lists, i + 1, p);
      }
    }
  }

  /** A pattern that does not end the loop hands the map on to the next one. */
  lemma GatherGoesOn(acc: map<char, string>, lists: seq<seq<AltMatch>>, i: nat)
    requires i < |lists| && !(Used(lists[i]) && |Apply(acc, lists[i])| >= 3)
    ensures Gather(acc, lists, i) == Gather(Apply(acc, lists[i]), lists, i + 1)
    ensures Consulted(acc, lists, i) == Consulted(Apply(acc, lists[i]), lists, i + 1)
  {
  }

  /** The loop stops before the last pattern only once it holds three keys or more. */
  lemma {:induction false} GatherStopsFull(acc: map<char, string>, lists: seq<seq<AltMatch>>, i: nat)
    requires i <= |lists|
    ensures Consulted(acc, lists, i) < |lists| ==> |Gather(acc, lists, i)| >= 3
    decreases |lists| - i
  {
    if i < |lists| {
      var next := Apply(acc, lists[i]);
      if !(Used(lists[i]) && |next| >= 3) {
        GatherStopsFull(next, lists, i + 1);
      }
    }
  }

  /** The number of patterns `parse_alternatives_from_ocr` consults. */
  function PatternsConsulted(lists: seq<seq<AltMatch>>): nat
  {
    Consulted(map[], lists, 0)
  }

  /** The option texts the pattern loop gathers from the three patterns' matches, in pattern order. */
  function Gathering(lists: seq<seq<AltMatch>>): map<char, string> {
    Gather(map[], lists, 0)
  }

  /**
    What the loop gathers: each key is a letter holding the text of one of
    that letter's matches, every letter of a consulted used pattern is a key,
    and the loop stops early only with three keys or more.
   */
  lemma GatheringSpec(lists: seq<seq<AltMatch>>)
    ensures Gathered(lists, Gathering(lists))
    ensures Gathered(lists[..PatternsConsulted(lists)], Gathering(lists))
    ensures PatternsConsulted(lists) <= |lists|
    ensures forall p :: 0 <= p < PatternsConsulted(lists) && Used(lists[p]) ==> KeysIn(lists[p], Gathering(lists))
    ensures PatternsConsulted(lists) < |lists| ==> |Gathering(lists)| >= 3
  {
    GatherKeepsGathered(map[], lists, 0);
    GatherPrefix(map[], lists, 0, PatternsConsulted(lists));
    GatherKeepsGathered(map[], lists[..PatternsConsulted(lists)], 0);
    GatherStopsFull(map[], lists, 0);
    forall p | 0 <= p < PatternsConsulted(lists) && Used(lists[p])
      ensures KeysIn(lists[p], Gathering(lists))
    {
      GatherHasKeys(map[], lists, 0, p);
    }
  }

  /** The loop reads no pattern past the ones it consults. */
  lemma {:induction false} GatherPrefix(acc: map<char, string>, lists: seq<seq<AltMatch>>, i: nat, c: nat)
    requires i <= |lists| && Consulted(acc, lists, i) <= c <= |lists|
    ensures i <= c && Gather(acc, lists, i) == Gather(acc, lists[..c], i)
    decreases |lists| - i
  {
    if i == |lists| {
      assert lists[..c] == lists;
    } else {
      var next := Apply(acc, lists[i]);
      assert lists[..c][i] == lists[i];
      if !(Used(lists[i]) && |next| >= 3) {
        GatherGoesOn(acc, lists, i);
        GatherPrefix(next, lists, i + 1, c);
      }
    }
  }

  /** A used pattern that leaves three keys or more ends the loop. */
  lemma GatherStops(acc: map<char, string>, lists: seq<seq<AltMatch>>, i: nat)
    requires i < |lists| && Used(lists[i]) && |Apply(acc, lists[i])| >= 3
    ensures Gather(acc, lists, i) == Apply(acc, lists[i])
  {
  }

  /** Once a used first pattern leaves three letters or more, the later patterns are not consulted. */
  lemma FirstFullPatternStops(lists: seq<seq<AltMatch>>)
    requires |lists| > 0 && Used(lists[0])
    requires |Apply(map[], lists[0])| >= 3
    ensures Gathering(lists) == Apply(map[], lists[0]) && PatternsConsulted(lists) == 1
  {
    GatherStops(map[], lists, 0);
  }

  /** Every letter, with its gathered text or the placeholder (`options.setdefault`). */
  function Fill(g: map<char, string>): (r: map<char, string>)
    ensures forall k :: k in r <==> IsLetter(k)
    ensures forall k :: k in g && IsLetter(k) ==> r[k] == g[k]
    ensures forall k :: k in r && k !in g ==> r[k] == Placeholder
  {
    KeysAreLetters();
    map k | k in Keys :: if k in g then g[k] else Placeholder
  }

  predicate AllPlaceholder(m: map<char, string>) {
    forall k :: k in m ==> m[k] == Placeholder
  }

  /**
    `parse_alternatives_from_ocr`: the five options read from OCR text, given
    the matches of its three option patterns. Letters no pattern produced get
    the placeholder; the result is absent for empty text and when every
    option is the placeholder.
   */
  function ParseAlternatives(text: string, lists: seq<seq<AltMatch>>): (r: Option<map<char, string>>)
    ensures |text| == 0 ==> r.None?
    ensures |text| > 0 ==> (r.None? <==> AllPlaceholder(Gathering(lists)))
    ensures r.Some? ==> forall k :: k in r.value <==> IsLetter(k)
    ensures r.Some? ==> forall k :: k in r.value ==> r.value[k] == Placeholder || FromMatch(lists, k, r.value[k])
    ensures r.Some? ==> forall k :: k in r.value ==> |r.value[k]| <= MaxOption
    ensures r.Some? ==> forall k :: k in Gathering(lists) ==> k in r.value && r.value[k] == Gathering(lists)[k]
  {
    if |text| == 0 then None
    else
      var g := Gathering(lists);
      GatheringSpec(lists);
      var full := Fill(g);
      assert AllPlaceholder(full) <==> AllPlaceholder(g);
      if !AllPlaceholder(full) then Some(full) else None
  }

  /** The placeholder options carry the five letters as their keys, in order. */
  lemma PlaceholderKeys()
    ensures forall i :: 0 <= i < 5 ==> PlaceholderOptions()[i].key == [Letter(i)]
  {
  }

  /** The option list built from a parsed map, in letter order. */
  function OptionsFrom(m: map<char, string>): (r: seq<Choice>)
    requires forall k :: IsLetter(k) ==> k in m
    ensures |r| == 5
    ensures forall i :: 0 <= i < 5 ==> r[i].key == [Letter(i)] && r[i].text == m[Letter(i)]
  {
    seq(5, i requires 0 <= i < 5 => Choice([Letter(i)], m[Letter(i)]))
  }

  // ---------------------------------------------------------------------------
  // Stem

  /** The separators `[.\-\u2013:]` allowed after an option letter. */
  predicate IsSeparator(c: char) {
    c == '.' || c == '-' || c == '\U{2013}' || c == ':'
  }

  /**
    `\s*[.\-\u2013:]?\s*\w` matches from `a`: a run of whitespace holding at
    most one separator (`sepUsed` says whether it has been seen), then a word
    character.
   */
  predicate TailAt(u: Unicode, t: string, a: nat, sepUsed: bool)
    decreases |t| - a
  {
    && a < |t|
    && (|| u.word(t[a])
        || (IsPySpace(t[a]) && TailAt(u, t, a + 1, sepUsed))
        || (!sepUsed && IsSeparator(t[a]) && TailAt(u, t, a + 1, true)))
  }

  /** `[A-E]\)?` followed by the tail matches from `a`. */
  predicate LetterAt(u: Unicode, t: string, a: nat) {
    && a < |t| && IsLetter(t[a])
    && (TailAt(u, t, a + 1, false) || (a + 1 < |t| && t[a + 1] == ')' && TailAt(u, t, a + 2, false)))
  }

  /** `\s*\(?` followed by a letter matches from `a`. */
  predicate HeadAt(u: Unicode, t: string, a: nat)
    decreases |t| - a
  {
    && a < |t|
    && (|| LetterAt(u, t, a)
        || (t[a] == '(' && LetterAt(u, t, a + 1))
        || (IsPySpace(t[a]) && HeadAt(u, t, a + 1)))
  }

  /** An option list starts at `p`: the pattern `\n\s*\(?[A-E]\)?\s*[.\-\u2013:]?\s*\w` matches there. */
  predicate AltStartAt(u: Unicode, t: string, p: nat) {
    p < |t| && t[p] == '\n' && HeadAt(u, t, p + 1)
  }

  /** `re.search` for the option list from `i`: the leftmost start, or `|t|` when there is none. */
  function FirstAltStart(u: Unicode, t: string, i: nat): (r: nat)
    requires i <= |t|
    ensures i <= r <= |t|
    ensures forall p :: i <= p < r ==> !AltStartAt(u, t, p)
    ensures r < |t| ==> AltStartAt(u, t, r)
    decreases |t| - i
  {
    if i == |t| || AltStartAt(u, t, i) then i else FirstAltStart(u, t, i + 1)
  }

  /**
    `extract_stem_from_ocr`: the OCR text without its leading question number
    and without everything from the first option on, stripped.
   */
  function ExtractStem(u: Unicode, text: string): (r: string)
    ensures |text| == 0 ==> r == ""
    ensures |text| > 0 ==> var t := StripNumberPrefix(text);
      exists cut :: && 0 <= cut <= |t| && r == Strip(t[..cut])
                    && (forall p :: 0 <= p < cut ==> !AltStartAt(u, t, p))
                    && (cut < |t| ==> AltStartAt(u, t, cut))
  {
    if |text| == 0 then ""
    else
      var t := StripNumberPrefix(text);
      Strip(t[..FirstAltStart(u, t, 0)])
  }

  /** A one-line stem followed by an option spelled `(X) ...` comes back as the stripped stem alone. */
  lemma StemEndsBeforeOptions(u: Unicode, stem: string, letter: char, rest: string)
    requires |stem| > 0 && !IsPySpace(stem[0]) && !IsDigit(stem[0])
    requires forall k :: 0 <= k < |stem| ==> stem[k] != '\n'
    requires IsLetter(letter)
    requires |rest| > 0 && u.word(rest[0])
    ensures ExtractStem(u, stem + "\n(" + [letter] + ") " + rest) == Strip(stem)
  {
    var t := stem + "\n(" + [letter] + ") " + rest;
    var n := |stem|;
    assert t[0] == stem[0];
    assert StripNumberPrefix(t) == t;
    assert t[n] == '\n' && t[n + 1] == '(' && t[n + 2] == letter && t[n + 3] == ')' && t[n + 4] == ' ';
    assert t[n + 5] == rest[0];
    assert TailAt(u, t, n + 5, false);
    assert TailAt(u, t, n + 4, false);
    assert LetterAt(u, t, n + 2);
    assert AltStartAt(u, t, n);
    forall p | 0 <= p < n ensures !AltStartAt(u, t, p) {
      assert t[p] == stem[p];
    }
    assert FirstAltStart(u, t, 0) == n;
    assert t[..n] == stem;
  }
}
