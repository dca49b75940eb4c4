/**
  The two representations of an account's labels: the list of label records
  the store holds, and the `;`-separated string the form edits.
 */
module LabelCodec {
  import opened AccountTypes
  import opened JsText

  const Separator := ';'

  /** The texts of a label list, in order. */
  function Texts(labels: seq<Label>): seq<string> {
    seq(|labels|, i requires 0 <= i < |labels| => labels[i].text)
  }

  /** A label the form can hold: not blank and free of the separator. */
  ghost predicate Editable(l: Label) {
    !Blank(l.text) && Separator !in l.text
  }

  ghost predicate AllEditable(labels: seq<Label>) {
    forall i :: 0 <= i < |labels| ==> Editable(labels[i])
  }

  /** The edit string of a label list: its texts joined with `;`. No labels
      give the empty string; the `;`-pieces of the edit string of editable
      labels are exactly their texts, in order. */
  function JoinLabels(labels: seq<Label>): (edit: string)
    ensures labels == [] ==> edit == ""
    ensures AllEditable(labels) && labels != [] ==> Split(edit, Separator) == Texts(labels)
  {
    SplitTexts(labels);
    Join(Texts(labels), Separator)
  }

  /** The texts of editable labels survive a join and a split. */
  lemma SplitTexts(labels: seq<Label>)
    ensures AllEditable(labels) && labels != [] ==>
              Split(Join(Texts(labels), Separator), Separator) == Texts(labels)
  {
    if AllEditable(labels) && labels != [] {
      var texts := Texts(labels);
      forall i | 0 <= i < |texts| ensures Separator !in texts[i] {
        assert Editable(labels[i]);
      }
      SplitJoin(texts, Separator);
    }
  }

  /** The filter `parseLabels` applies: the segment does not trim to "". */
  predicate Kept(segment: string)
    ensures Kept(segment) <==> !Blank(segment)
  {
    TrimEmptyIffBlank(segment);
    Trim(segment) != ""
  }

  /** Each segment wrapped as a label, in order, untrimmed, dropping the
      segments that trim to the empty string. */
  function KeepNonBlank(segments: seq<string>): (labels: seq<Label>)
    ensures |labels| <= |segments|
    ensures forall i :: 0 <= i < |labels| ==> !Blank(labels[i].text) && labels[i].text in segments
  {
    if segments == [] then []
    else
      var rest := KeepNonBlank(segments[1..]);
      if Kept(segments[0]) then [Label(segments[0])] + rest else rest
  }

  /** Filtering the segments of two lists is filtering each one. */
  lemma {:induction false} KeepNonBlankAppend(a: seq<string>, b: seq<string>)
    ensures KeepNonBlank(a + b) == KeepNonBlank(a) + KeepNonBlank(b)
  {
    if a == [] {
      assert a + b == b;
    } else {
      var ab := a + b;
      assert ab[0] == a[0];
      assert ab[1..] == a[1..] + b;
      KeepNonBlankAppend(a[1..], b);
      var tail := KeepNonBlank(a[1..]) + KeepNonBlank(b);
      if !Kept(a[0]) {
        assert KeepNonBlank(ab) == tail;
        assert KeepNonBlank(a) == KeepNonBlank(a[1..]);
      } else {
        assert KeepNonBlank(ab) == [Label(a[0])] + tail;
        assert KeepNonBlank(a) == [Label(a[0])] + KeepNonBlank(a[1..]);
      }
    }
  }

  /** `parseLabels`: no edit string gives no labels; otherwise the
      non-blank `;`-separated segments, in order, each kept untrimmed. */
  function ParseLabels(edit: Option<string>): (labels: seq<Label>)
    ensures edit.None? ==> labels == []
    ensures AllEditable(labels)
    ensures edit.Some? ==> forall i :: 0 <= i < |labels| ==> labels[i].text in Split(edit.value, Separator)
  {
    match edit
    case None => []
    case Some(s) =>
      SplitPiecesFree(s, Separator);
      KeepNonBlank(Split(s, Separator))
  }

  /** An edit string without a separator is one label, or none when it is blank. */
  lemma ParseOneSegment(s: string)
    requires Separator !in s
    ensures ParseLabels(Some(s)) == if Blank(s) then [] else [Label(s)]
  {
    SplitWithoutSep(s, Separator);
    assert Split(s, Separator)[1..] == [];
  }

  /** Parsing keeps order: the labels of `a;b` are the labels of `a` followed by those of `b`. */
  lemma ParseAround(a: string, b: string)
    ensures ParseLabels(Some(a + [Separator] + b)) == ParseLabels(Some(a)) + ParseLabels(Some(b))
  {
    SplitAround(a, b, Separator);
    KeepNonBlankAppend(Split(a, Separator), Split(b, Separator));
  }

  /** The texts of a list with a label in front. */
  lemma TextsCons(l: Label, rest: seq<Label>)
    ensures Texts([l] + rest) == [l.text] + Texts(rest)
  {
  }

  /** Segments with no blank member are all kept. */
  lemma {:induction false} KeepAllNonBlank(segments: seq<string>)
    requires forall i :: 0 <= i < |segments| ==> !Blank(segments[i])
    ensures Texts(KeepNonBlank(segments)) == segments
  {
    if segments != [] {
      var head := segments[0];
      var tail := segments[1..];
      assert forall i :: 0 <= i < |tail| ==> !Blank(tail[i]) by {
        forall i | 0 <= i < |tail| ensures !Blank(tail[i]) {
          assert tail[i] == segments[i + 1];
        }
      }
      KeepAllNonBlank(tail);
      var rest := KeepNonBlank(tail);
      assert Kept(head);
      assert KeepNonBlank(segments) == [Label(head)] + rest;
      TextsCons(Label(head), rest);
      HeadTail(segments, []);
      assert segments + [] == segments;
    }
  }

  /** Two label lists with the same texts are the same list. */
  lemma TextsInjective(a: seq<Label>, b: seq<Label>)
    requires Texts(a) == Texts(b)
    ensures a == b
  {
    assert |a| == |b|;
    forall i | 0 <= i < |a| ensures a[i] == b[i] {
      assert a[i].text == Texts(a)[i];
    }
  }

  /** Round trip: a list of editable labels, written as its edit string and
      parsed back, is the same list (the empty list goes through ""). */
  lemma ParseJoinRoundTrip(labels: seq<Label>)
    requires AllEditable(labels)
    ensures ParseLabels(Some(JoinLabels(labels))) == labels
  {
    var texts := Texts(labels);
    if labels == [] {
      assert JoinLabels(labels) == "";
      assert Split("", Separator) == [""];
      assert !Kept("");
    } else {
      assert forall i :: 0 <= i < |texts| ==> !Blank(texts[i]) by {
        forall i | 0 <= i < |texts| ensures !Blank(texts[i]) {
          assert Editable(labels[i]);
        }
      }
      KeepAllNonBlank(texts);
      TextsInjective(KeepNonBlank(texts), labels);
    }
  }

  /** Normalising an edit string is idempotent: parsing the re-joined labels
      gives the labels parsed the first time. */
  lemma ParseIdempotent(edit: Option<string>)
    ensures ParseLabels(Some(JoinLabels(ParseLabels(edit)))) == ParseLabels(edit)
  {
    ParseJoinRoundTrip(ParseLabels(edit));
  }

  /** Dropping segments never lengthens the joined string. */
  lemma {:induction false} JoinKeptNoLonger(segments: seq<string>)
    requires |segments| >= 1
    ensures |JoinLabels(KeepNonBlank(segments))| <= |Join(segments, Separator)|
  {
    var rest := KeepNonBlank(segments[1..]);
    var head := segments[0];
    if |segments| == 1 {
      assert rest == [];
      if Kept(head) {
        assert KeepNonBlank(segments) == [Label(head)];
        assert Texts([Label(head)]) == [head];
      }
    } else {
      JoinKeptNoLonger(segments[1..]);
      if Kept(head) {
        var kept := [Label(head)] + rest;
        assert KeepNonBlank(segments) == kept;
        assert Texts(kept) == [head] + Texts(rest);
        if rest != [] {
          assert Texts(kept)[1..] == Texts(rest);
        }
      }
    }
  }

  /** Normalising an edit string never lengthens it. */
  lemma NormalisedNoLonger(s: string)
    ensures |JoinLabels(ParseLabels(Some(s)))| <= |s|
  {
    JoinKeptNoLonger(Split(s, Separator));
    JoinSplit(s, Separator);
  }
}
