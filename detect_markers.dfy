/*******************************************************************************
 *  Slide-transition marker detection over a word-timestamped transcript.
 *
 *  The narration of every slide ends with the spoken phrase
 *  "次のスライドに進んでください。".  A speech recogniser turns the audio into
 *  segments, each with its text and its words, every word carrying the time
 *  at which it ends.  The scan below picks, per segment, the end time of the
 *  word that closes the marker phrase: the first word containing "ください"
 *  whose preceding window of at most eight words, joined, contains "スライド".
 *******************************************************************************/
module MarkerDetection {

  datatype Option<T> = None | Some(value: T)

  /** One recognised word (a sub-word token, in practice) and its end time in seconds. */
  datatype Word = Word(word: string, end: real)

  /** One recognised transcript segment; `words` is empty when the recogniser gave none. */
  datatype Segment = Segment(text: string, words: seq<Word>)

  /** The marker noun that must occur in the segment and in the window. */
  const Marker: string := "スライド"

  /** The word that closes the marker phrase. */
  const Please: string := "ください"

  /** How many words before a "ください" word are joined and searched. */
  const WindowSize: nat := 8

  // ---------------------------------------------------------------------------
  // Strings
  // ---------------------------------------------------------------------------

  /** `pat` occurs in `s` starting at offset `k`. */
  predicate OccursAt(s: string, pat: string, k: nat) {
    k + |pat| <= |s| && s[k..k + |pat|] == pat
  }

  /** Substring containment (the `in` test on strings): `pat` occurs in `s` at some offset. */
  function Contains(s: string, pat: string): (r: bool)
    ensures pat == [] ==> r
    ensures r ==> |pat| <= |s|
  {
    assert pat == [] ==> OccursAt(s, pat, 0);
    exists k: nat | k <= |s| :: OccursAt(s, pat, k)
  }

  lemma ContainsRight(a: string, b: string, pat: string)
    requires Contains(b, pat)
    ensures Contains(a + b, pat)
  {
    var k: nat :| k <= |b| && OccursAt(b, pat, k);
    assert (a + b)[|a| + k..|a| + k + |pat|] == b[k..k + |pat|];
    assert OccursAt(a + b, pat, |a| + k);
  }

  /** The words' texts concatenated without separator. */
  function Join(ws: seq<Word>): (r: string)
    ensures ws == [] ==> r == []
    ensures ws != [] ==> ws[0].word <= r
    ensures |ws| == 1 ==> r == ws[0].word
  {
    if ws == [] then [] else ws[0].word + Join(ws[1..])
  }

  /** Join sees the text of the words and nothing else. */
  lemma {:induction false} JoinSameWords(a: seq<Word>, b: seq<Word>)
    requires |a| == |b|
    requires forall k :: 0 <= k < |a| ==> a[k].word == b[k].word
    ensures Join(a) == Join(b)
  {
    if a != [] {
      JoinSameWords(a[1..], b[1..]);
    }
  }

  /** Every joined word occurs in the joined string. */
  lemma {:induction false} JoinContainsEach(ws: seq<Word>, k: nat)
    requires k < |ws|
    ensures Contains(Join(ws), ws[k].word)
  {
    if k == 0 {
      assert ws[0].word == (ws[0].word + Join(ws[1..]))[0..|ws[0].word|];
      assert OccursAt(Join(ws), ws[0].word, 0);
    } else {
      JoinContainsEach(ws[1..], k - 1);
      ContainsRight(ws[0].word, Join(ws[1..]), ws[k].word);
    }
  }

  // ---------------------------------------------------------------------------
  // The preceding window and the per-segment match
  // ---------------------------------------------------------------------------

  /** First index of the window before word `i`: max(0, i - 8). */
  function WindowStart(i: nat): (r: nat)
    ensures r <= i && i - r <= WindowSize
    ensures i >= WindowSize ==> i - r == WindowSize
    ensures i < WindowSize ==> r == 0
  {
    if i >= WindowSize then i - WindowSize else 0
  }

  /** The texts of words max(0, i - 8) .. i - 1, joined. */
  function Preceding(words: seq<Word>, i: nat): (r: string)
    requires i <= |words|
    ensures i == 0 ==> r == []
    ensures i < WindowSize ==> r == Join(words[..i])
    ensures i >= WindowSize ==> r == Join(words[i - WindowSize..i])
  {
    Join(words[WindowStart(i)..i])
  }

  /** Word `i` closes a marker phrase: it contains "ください" and its window contains "スライド". */
  function Qualifies(words: seq<Word>, i: nat): (r: bool)
    requires i < |words|
    ensures r ==> 0 < i && |Please| <= |words[i].word|
  {
    Contains(words[i].word, Please) && Contains(Preceding(words, i), Marker)
  }

  predicate AnyMatch(words: seq<Word>) {
    exists i | 0 <= i < |words| :: Qualifies(words, i)
  }

  predicate IsFirstMatch(words: seq<Word>, i: nat) {
    i < |words| && Qualifies(words, i) && forall j | 0 <= j < i :: !Qualifies(words, j)
  }

  /** The least qualifying index at or after `from`, if any. */
  function FirstMatchFrom(words: seq<Word>, from: nat): (r: Option<nat>)
    requires from <= |words|
    decreases |words| - from
    ensures r.Some? ==> from <= r.value < |words| && Qualifies(words, r.value)
    ensures r.Some? ==> forall j | from <= j < r.value :: !Qualifies(words, j)
    ensures r.None? ==> forall j | from <= j < |words| :: !Qualifies(words, j)
  {
    if from == |words| then None
    else if Qualifies(words, from) then Some(from)
    else FirstMatchFrom(words, from + 1)
  }

  /** What one segment adds to the output: nothing, or the end of its first match. */
  function Contribution(seg: Segment): (r: seq<real>)
    ensures |r| <= 1
  {
    if !Contains(seg.text, Marker) then []
    else if seg.words == [] then []
    else match FirstMatchFrom(seg.words, 0)
      case None => []
      case Some(i) => [seg.words[i].end]
  }

  /** A segment adds nothing exactly when its text lacks the marker noun or none of its
      words qualifies; otherwise it adds the end time of its first qualifying word. */
  lemma ContributionSpec(seg: Segment)
    ensures Contribution(seg) == [] <==> !Contains(seg.text, Marker) || !AnyMatch(seg.words)
    ensures forall i: nat | IsFirstMatch(seg.words, i) ::
              Contains(seg.text, Marker) ==> Contribution(seg) == [seg.words[i].end]
  {
  }

  /** The transition timestamps of a whole transcript, segment by segment. */
  function Detect(segs: seq<Segment>): (r: seq<real>)
    ensures |r| <= |segs|
  {
    if segs == [] then []
    else Detect(segs[..|segs| - 1]) + Contribution(segs[|segs| - 1])
  }

  // ---------------------------------------------------------------------------
  // Properties of the matching rule
  // ---------------------------------------------------------------------------

  /** The window of word `i` sees only words max(0, i - 8) .. i - 1: neither word `i`
      itself nor anything further back can change it. */
  lemma {:induction false} PrecedingDependsOnlyOnWindow(w1: seq<Word>, w2: seq<Word>, i: nat)
    requires i <= |w1| && i <= |w2|
    requires forall j | WindowStart(i) <= j < i :: w1[j].word == w2[j].word
    ensures Preceding(w1, i) == Preceding(w2, i)
  {
    var a, b := w1[WindowStart(i)..i], w2[WindowStart(i)..i];
    forall k | 0 <= k < |a| ensures a[k].word == b[k].word {
      assert a[k] == w1[WindowStart(i) + k] && b[k] == w2[WindowStart(i) + k];
    }
    JoinSameWords(a, b);
  }

  /** Conversely every word of the window occurs in the joined window. */
  lemma WindowWordInPreceding(words: seq<Word>, i: nat, j: nat)
    requires i <= |words| && WindowStart(i) <= j < i
    ensures Contains(Preceding(words, i), words[j].word)
  {
    var ws := words[WindowStart(i)..i];
    assert ws[j - WindowStart(i)] == words[j];
    JoinContainsEach(ws, j - WindowStart(i));
  }

  /** Whether word `j` qualifies depends only on words 0 .. j. */
  lemma QualifiesOnPrefix(w1: seq<Word>, w2: seq<Word>, j: nat)
    requires j < |w1| && j < |w2| && w1[..j + 1] == w2[..j + 1]
    ensures Qualifies(w1, j) <==> Qualifies(w2, j)
  {
    assert w1[j] == w1[..j + 1][j] == w2[..j + 1][j] == w2[j];
    forall k | WindowStart(j) <= k < j ensures w1[k].word == w2[k].word {
      assert w1[k] == w1[..j + 1][k] && w2[k] == w2[..j + 1][k];
    }
    PrecedingDependsOnlyOnWindow(w1, w2, j);
  }

  /** Once some word qualifies, the words after it cannot change what the segment emits:
      only the first qualifying word counts, and the rest of the segment is skipped. */
  lemma LaterWordsIgnored(seg: Segment, i: nat, rest: seq<Word>)
    requires i < |seg.words| && Qualifies(seg.words, i)
    ensures Contribution(Segment(seg.text, seg.words[..i + 1] + rest)) == Contribution(seg)
  {
    var words := seg.words;
    var cut := words[..i + 1] + rest;
    assert cut[..i + 1] == words[..i + 1];
    forall j | 0 <= j <= i ensures Qualifies(cut, j) <==> Qualifies(words, j) {
      assert cut[..j + 1] == words[..j + 1] by {
        assert cut[..j + 1] == cut[..i + 1][..j + 1];
        assert words[..j + 1] == words[..i + 1][..j + 1];
      }
      QualifiesOnPrefix(cut, words, j);
    }
    var m := FirstMatchFrom(words, 0);
    assert m.Some? && m.value <= i;
    assert IsFirstMatch(words, m.value);
    assert IsFirstMatch(cut, m.value);
    assert cut[m.value] == words[m.value];
    ContributionSpec(seg);
    ContributionSpec(Segment(seg.text, cut));
  }

  /** The output for a concatenated transcript is the concatenation of the outputs. */
  lemma {:induction false} DetectAppend(a: seq<Segment>, b: seq<Segment>)
    ensures Detect(a + b) == Detect(a) + Detect(b)
    decreases |b|
  {
    if b == [] {
      assert a + b == a;
    } else {
      var b' := b[..|b| - 1];
      assert (a + b)[..|a + b| - 1] == a + b';
      assert (a + b)[|a + b| - 1] == b[|b| - 1];
      DetectAppend(a, b');
    }
  }

  /** Read front to back: the first segment's contribution comes first. */
  lemma DetectFront(segs: seq<Segment>)
    requires segs != []
    ensures Detect(segs) == Contribution(segs[0]) + Detect(segs[1..])
  {
    var head := [segs[0]];
    assert Detect(head) == Contribution(segs[0]) by {
      assert head[..0] == [];
    }
    DetectAppend(head, segs[1..]);
    assert head + segs[1..] == segs;
  }

  /** The index of the segment each emitted timestamp comes from. */
  ghost function Origins(segs: seq<Segment>): seq<nat> {
    if segs == [] then []
    else Origins(segs[..|segs| - 1])
         + (if Contribution(segs[|segs| - 1]) == [] then [] else [|segs| - 1])
  }

  /** The origin indices are valid and strictly increasing: the output follows segment
      order, one timestamp at most per segment. */
  lemma {:induction false} OriginsOrdered(segs: seq<Segment>)
    ensures forall m | 0 <= m < |Origins(segs)| :: Origins(segs)[m] < |segs|
    ensures forall m, n | 0 <= m < n < |Origins(segs)| :: Origins(segs)[m] < Origins(segs)[n]
  {
    if segs != [] {
      var init := segs[..|segs| - 1];
      OriginsOrdered(init);
      var o := Origins(init);
      var r := Origins(segs);
      assert r == o + (if Contribution(segs[|segs| - 1]) == [] then [] else [|segs| - 1]);
      forall m, n | 0 <= m < n < |r| ensures r[m] < r[n] {
        assert r[m] == o[m];
        if |o| <= n {
          assert r[n] == |segs| - 1;
        }
      }
    }
  }

  /** Each emitted timestamp is the whole contribution of its origin segment. */
  lemma {:induction false} OriginsMatchOutput(segs: seq<Segment>)
    ensures |Origins(segs)| == |Detect(segs)|
    ensures forall m | 0 <= m < |Origins(segs)| && Origins(segs)[m] < |segs| ::
              Contribution(segs[Origins(segs)[m]]) == [Detect(segs)[m]]
  {
    if segs != [] {
      var init, last := segs[..|segs| - 1], segs[|segs| - 1];
      OriginsMatchOutput(init);
      OriginsOrdered(init);
      var o, d, c := Origins(init), Detect(init), Contribution(last);
      var r := Origins(segs);
      assert r == o + (if c == [] then [] else [|segs| - 1]);
      assert Detect(segs) == d + c;
      forall m | 0 <= m < |r| && r[m] < |segs|
        ensures Contribution(segs[r[m]]) == [Detect(segs)[m]]
      {
        if m < |o| {
          assert r[m] == o[m] && Detect(segs)[m] == d[m] && segs[o[m]] == init[o[m]];
        } else {
          assert r[m] == |segs| - 1 && Detect(segs)[m] == c[0];
        }
      }
    }
  }

  /** A string none of whose characters opens the marker noun does not contain it. */
  lemma NoMarkerStart(s: string)
    requires forall c | c in s :: c != Marker[0]
    ensures !Contains(s, Marker)
  {
    forall k: nat | k <= |s| ensures !OccursAt(s, Marker, k) {
      if k + |Marker| <= |s| {
        assert s[k..k + |Marker|][0] == s[k] && s[k] in s;
      }
    }
  }

  /** Joining filler words gives filler characters only. */
  lemma {:induction false} JoinOfFillers(ws: seq<Word>)
    requires forall k | 0 <= k < |ws| :: ws[k].word == "あ"
    ensures forall c | c in Join(ws) :: c == 'あ'
  {
    if ws != [] {
      JoinOfFillers(ws[1..]);
    }
  }

  /** A transcript segment in which the recogniser split the marker noun into the
      sub-word tokens "ス" "ライ" "ド". */
  function SubwordSegment(): Segment {
    Segment("次のスライドに進んでください。",
            [Word("次の", 1.0), Word("ス", 1.25), Word("ライ", 1.5), Word("ド", 1.75),
             Word("に", 2.0), Word("進んで", 2.5), Word("ください。", 3.0)])
  }

  lemma SubwordWindowJoined()
    ensures Preceding(SubwordSegment().words, 6) == "次のスライドに進んで"
  {
    var words := SubwordSegment().words;
    assert words[5..6][1..] == words[6..6];
    assert Join(words[5..6]) == "進んで";
    assert words[4..6][1..] == words[5..6];
    assert Join(words[4..6]) == "に進んで";
    assert words[3..6][1..] == words[4..6];
    assert Join(words[3..6]) == "ドに進んで";
    assert words[2..6][1..] == words[3..6];
    assert Join(words[2..6]) == "ライドに進んで";
    assert words[1..6][1..] == words[2..6];
    assert Join(words[1..6]) == "スライドに進んで";
    assert words[0..6][1..] == words[1..6];
  }

  /** Joining the window still finds the split marker noun, and the end of "ください。"
      is emitted. */
  lemma SubwordMarkerFound()
    ensures Detect([SubwordSegment()]) == [3.0]
  {
    var seg := SubwordSegment();
    var words := seg.words;
    assert OccursAt(seg.text, Marker, 2);
    SubwordWindowJoined();
    assert OccursAt(Preceding(words, 6), Marker, 2);
    assert OccursAt(words[6].word, Please, 0);
    forall j | 0 <= j < 6 ensures !Qualifies(words, j) {
      assert |words[j].word| < |Please|;
    }
    assert IsFirstMatch(words, 6);
    ContributionSpec(seg);
    assert [seg][..0] == [];
  }

  /** The marker noun nine words before "ください" is out of reach; eight words before,
      it is seen. */
  lemma WindowReachesEightBack()
    ensures var filler := Word("あ", 0.5);
            Detect([Segment("スライド", [Word("スライド", 0.0)] + seq(8, _ => filler) + [Word("ください", 9.0)])]) == []
            && Detect([Segment("スライド", [Word("スライド", 0.0)] + seq(7, _ => filler) + [Word("ください", 8.0)])]) == [8.0]
  {
    var filler := Word("あ", 0.5);
    assert OccursAt("スライド", Marker, 0);
    assert !Contains("スライド", Please) by {
      assert !OccursAt("スライド", Please, 0);
    }
    assert !Contains("あ", Please);
    assert OccursAt("ください", Please, 0);

    var far := [Word("スライド", 0.0)] + seq(8, _ => filler) + [Word("ください", 9.0)];
    forall j | 0 <= j < 9 ensures !Qualifies(far, j) {
      assert far[j].word == "スライド" || far[j].word == "あ";
    }
    JoinOfFillers(far[1..9]);
    NoMarkerStart(Preceding(far, 9));
    assert !AnyMatch(far);
    ContributionSpec(Segment("スライド", far));
    assert [Segment("スライド", far)][..0] == [];

    var near := [Word("スライド", 0.0)] + seq(7, _ => filler) + [Word("ください", 8.0)];
    forall j | 0 <= j < 8 ensures !Qualifies(near, j) {
      assert near[j].word == "スライド" || near[j].word == "あ";
    }
    WindowWordInPreceding(near, 8, 0);
    assert IsFirstMatch(near, 8);
    ContributionSpec(Segment("スライド", near));
    assert [Segment("スライド", near)][..0] == [];
  }

  // ---------------------------------------------------------------------------
  // The scan as the program runs it
  // ---------------------------------------------------------------------------

  method DetectMarkerTimestamps(segments: seq<Segment>) returns (transitions: seq<real>)
    ensures transitions == Detect(segments)
  {
    transitions := [];
    for s := 0 to |segments|
      invariant transitions == Detect(segments[..s])
    {
      assert segments[..s + 1][..s] == segments[..s];
      var text := segments[s].text;
      var words := segments[s].words;

      // segments without the marker noun are skipped
      if !Contains(text, Marker) {
        continue;
      }
      if words == [] {
        continue;
      }

      var found := false;
      for i := 0 to |words|
        invariant !found
        invariant forall j | 0 <= j < i :: !Qualifies(words, j)
        invariant transitions == Detect(segments[..s])
      {
        var w := words[i];
        if !Contains(w.word, Please) {
          continue;
        }
        var preceding := Preceding(words, i);
        if Contains(preceding, Marker) {
          assert IsFirstMatch(words, i);
          ContributionSpec(segments[s]);
          transitions := transitions + [w.end];
          found := true;
          break;
        }
      }
      if found {
        continue;
      }
      ContributionSpec(segments[s]);
    }
    assert segments[..|segments|] == segments;
  }
}
