/** The two derived forms of a plant description that the page keeps:
    the HTML display form and the speech-friendly narration form. */
module Formatter {
  import opened Strings

  /** The section labels whose trailing colon is turned into a comma, in the order they are rewritten. */
  const Labels: seq<string> :=
    ["Family", "Origin", "Growth Habit", "Light Required", "Water Required", "Soil Condition", "Uses"]

  /** Every one of the seven labels is a proper label name. */
  lemma LabelsWellFormed()
    ensures forall k :: 0 <= k < |Labels| ==> IsLabel(Labels[k])
  {
    forall k | 0 <= k < |Labels|
      ensures IsLabel(Labels[k])
    {
      LabelWellFormed(k);
    }
  }

  lemma LabelWellFormed(k: nat)
    requires k < |Labels|
    ensures IsLabel(Labels[k])
  {
    assert Labels[k] in {"Family", "Origin", "Growth Habit", "Light Required", "Water Required", "Soil Condition", "Uses"};
    LabelNamesWellFormed();
  }

  /** Each of the seven names, checked as written. */
  lemma LabelNamesWellFormed()
    ensures IsLabel("Family") && IsLabel("Origin") && IsLabel("Growth Habit") && IsLabel("Light Required")
    ensures IsLabel("Water Required") && IsLabel("Soil Condition") && IsLabel("Uses")
  {
  }

  /** Neither a line break nor a semicolon occurs. */
  predicate Speakable(s: string) {
    '\n' !in s && ';' !in s
  }

  /** The display form: every line break becomes an HTML `<br>`. */
  function DisplayForm(description: string): (r: string)
    ensures '\n' !in r
    ensures |r| == |description| + 3 * CountChar(description, '\n')
  {
    var r := ReplaceAll(description, "\n", "<br>");
    ReplaceCharRemoves(description, '\n', "<br>");
    ReplaceCharLength(description, '\n', "<br>");
    assert |"<br>"| - 1 == 3;
    r
  }

  /** Each `Label:` marker becomes `Label,`, one label after another. */
  function RewriteLabels(s: string, labels: seq<string>): (r: string)
    requires forall k :: 0 <= k < |labels| ==> IsLabel(labels[k])
    ensures |r| == |s|
    ensures Speakable(s) ==> Speakable(r)
    decreases |labels|
  {
    if |labels| == 0 then s
    else
      var rep := labels[0] + ",";
      assert IsLabel(labels[0]);
      assert Speakable(rep);
      ReplaceIntroduces(s, labels[0] + ":", rep, '\n');
      ReplaceIntroduces(s, labels[0] + ":", rep, ';');
      RewriteLabels(ReplaceAll(s, labels[0] + ":", rep), labels[1..])
  }

  /** The punctuation pass of the narration form: line breaks become `. `
      and semicolons become commas. */
  function Punctuate(description: string): (r: string)
    ensures Speakable(r)
    ensures |r| == |description| + CountChar(description, '\n')
  {
    var sentences := ReplaceAll(description, "\n", ". ");
    ReplaceCharRemoves(description, '\n', ". ");
    ReplaceCharLength(description, '\n', ". ");
    assert |sentences| == |description| + CountChar(description, '\n');
    ReplaceCharRemoves(sentences, ';', ",");
    ReplaceIntroduces(sentences, ";", ",", '\n');
    ReplaceAll(sentences, ";", ",")
  }

  /** The narration form: the punctuation pass, then the section labels end
      in a comma instead of a colon. */
  function NarrationForm(description: string): (r: string)
    ensures Speakable(r)
    ensures |r| == |description| + CountChar(description, '\n')
  {
    LabelsWellFormed();
    RewriteLabels(Punctuate(description), Labels)
  }

  /** A section label: a non-empty name with no line break, semicolon, colon or comma. */
  predicate IsLabel(name: string) {
    |name| > 0 && Speakable(name) && ':' !in name && ',' !in name
  }

  /** The label pass only turns colons into commas, and afterwards no
      `Label:` marker of any of its labels is left. */
  lemma {:induction false} RewriteLabelsClears(s: string, labels: seq<string>)
    requires forall k :: 0 <= k < |labels| ==> IsLabel(labels[k])
    ensures Demoted(s, RewriteLabels(s, labels), ':', ',')
    ensures forall k :: 0 <= k < |labels| ==> !Contains(RewriteLabels(s, labels), labels[k] + ":")
    decreases |labels|
  {
    if |labels| > 0 {
      var name := labels[0];
      var pat := name + ":";
      assert pat[..|pat| - 1] + [','] == name + ",";
      assert pat[|pat| - 1] == ':';
      var t := ReplaceAll(s, pat, name + ",");
      var r := RewriteLabels(t, labels[1..]);
      ReplaceDemotes(s, pat, ',');
      ReplaceClearsPattern(s, pat, ',');
      RewriteLabelsClears(t, labels[1..]);
      DemotedTransitive(s, t, r, ':', ',');
      DemotedContains(t, r, ':', ',', pat);
      forall k | 1 <= k < |labels|
        ensures !Contains(r, labels[k] + ":")
      {
        assert labels[k] == labels[1..][k - 1];
      }
    }
  }

  /** None of the seven `Label:` markers survives in the narration form. */
  lemma NarrationHasNoLabelMarkers(description: string)
    ensures forall k :: 0 <= k < |Labels| ==> !Contains(NarrationForm(description), Labels[k] + ":")
  {
    LabelsWellFormed();
    RewriteLabelsClears(Punctuate(description), Labels);
  }

  /** The display form keeps every character other than a line break, in
      order, and puts `<br>` exactly where each line break was. */
  lemma DisplayPositions(description: string, i: int)
    requires 0 <= i < |description|
    ensures var r := DisplayForm(description);
            var o := i + 3 * CountChar(description[..i], '\n');
            && (description[i] == '\n' ==> o + 4 <= |r| && r[o..o + 4] == "<br>")
            && (description[i] != '\n' ==> o < |r| && r[o] == description[i])
  {
    var n := CountChar(description[..i], '\n');
    ReplaceCharAt(description, '\n', "<br>", i);
    assert n * (|"<br>"| - 1) == 3 * n;
  }

  /** A description with no line break, semicolon or colon is narrated verbatim. */
  lemma {:induction false} PlainTextNarratedVerbatim(description: string)
    requires '\n' !in description && ';' !in description && ':' !in description
    ensures NarrationForm(description) == description
  {
    MissingCharNotContained(description, "\n", '\n');
    ReplaceAbsent(description, "\n", ". ");
    MissingCharNotContained(description, ";", ';');
    ReplaceAbsent(description, ";", ",");
    LabelsWellFormed();
    LabelsAbsent(description, Labels);
  }

  lemma {:induction false} LabelsAbsent(s: string, labels: seq<string>)
    requires forall k :: 0 <= k < |labels| ==> IsLabel(labels[k])
    requires ':' !in s
    ensures RewriteLabels(s, labels) == s
    decreases |labels|
  {
    if |labels| > 0 {
      var pat := labels[0] + ":";
      assert pat[|pat| - 1] == ':';
      MissingCharNotContained(s, pat, ':');
      ReplaceAbsent(s, pat, labels[0] + ",");
      LabelsAbsent(s, labels[1..]);
    }
  }

  /** The worked example of a two-line description. */
  lemma NarrationExample()
    ensures NarrationForm("Family: Rosaceae\nOrigin: Asia") == "Family, Rosaceae. Origin, Asia"
  {
    ExampleSplit();
    ReplaceOneOccurrence("Family: Rosaceae", "\n", "Origin: Asia", ". ");
    ExampleNoSemicolon();
    ExampleLabels();
  }

  /* The literal cuts of the worked example, each proved apart from any replacement. */

  lemma ExampleSplit()
    ensures "Family: Rosaceae\nOrigin: Asia" == "Family: Rosaceae" + ("\n" + "Origin: Asia")
  {
  }

  lemma ExampleCutFamily()
    ensures "Family: Rosaceae" + (". " + "Origin: Asia") == "Family:" + " Rosaceae. Origin: Asia"
  {
  }

  lemma ExampleCutOrigin()
    ensures "Family," + " Rosaceae. Origin: Asia" == "Family, Rosaceae. " + ("Origin:" + " Asia")
  {
  }

  lemma ExampleJoin()
    ensures "Family, Rosaceae. " + ("Origin," + " Asia") == "Family, Rosaceae. Origin, Asia"
    ensures "Family: Rosaceae" + ("<br>" + "Origin: Asia") == "Family: Rosaceae<br>Origin: Asia"
  {
  }

  lemma ExampleLabelTexts()
    ensures Labels[0] + ":" == "Family:" && Labels[0] + "," == "Family,"
    ensures Labels[1..][0] + ":" == "Origin:" && Labels[1..][0] + "," == "Origin,"
    ensures Labels[1..][1..] == Labels[2..]
  {
  }

  lemma ExampleNoSemicolon()
    ensures var s := "Family: Rosaceae" + (". " + "Origin: Asia");
            ReplaceAll(s, ";", ",") == s
  {
    var s := "Family: Rosaceae" + (". " + "Origin: Asia");
    ReplaceSkipsPrefix(s, "", ";", ",");
    assert s + "" == s;
  }

  /** The label pass over the worked example: only `Family:` and `Origin:` occur. */
  lemma ExampleLabels()
    ensures RewriteLabels("Family: Rosaceae" + (". " + "Origin: Asia"), Labels) == "Family, Rosaceae. Origin, Asia"
  {
    ExampleCutFamily();
    ExampleLabelTexts();
    ReplaceFrontOnly("Family:", " Rosaceae. Origin: Asia", "Family,");
    ExampleOrigin();
  }

  lemma ExampleOrigin()
    ensures RewriteLabels("Family," + " Rosaceae. Origin: Asia", Labels[1..]) == "Family, Rosaceae. Origin, Asia"
  {
    ExampleCutOrigin();
    ExampleLabelTexts();
    ExampleJoin();
    ReplaceOneOccurrence("Family, Rosaceae. ", "Origin:", " Asia", "Origin,");
    ExampleLaterLabels();
  }

  /** Labels three to seven start with letters the rewritten example lacks. */
  lemma ExampleLaterLabels()
    ensures RewriteLabels("Family, Rosaceae. Origin, Asia", Labels[2..]) == "Family, Rosaceae. Origin, Asia"
  {
    var done := "Family, Rosaceae. Origin, Asia";
    LabelsWellFormed();
    forall k | 0 <= k < |Labels[2..]|
      ensures IsLabel(Labels[2..][k]) && Labels[2..][k][0] !in done
    {
      assert Labels[2..][k] == Labels[k + 2];
      assert Labels[k + 2][0] in "GLWSU";
    }
    LabelsAbsentFrom(done, Labels[2..]);
  }

  /** A pattern at the front of a text that holds no other start of it. */
  lemma ReplaceFrontOnly(pat: string, rest: string, rep: string)
    requires |pat| > 0 && pat[0] !in rest
    ensures ReplaceAll(pat + rest, pat, rep) == rep + rest
  {
    ReplaceAtFront(pat, rest, rep);
    ReplaceSkipsPrefix(rest, "", pat, rep);
    assert rest + "" == rest;
  }

  /** One occurrence of a pattern whose first character occurs nowhere else. */
  lemma ReplaceOneOccurrence(head: string, pat: string, tail: string, rep: string)
    requires |pat| > 0 && pat[0] !in head && pat[0] !in tail
    ensures ReplaceAll(head + (pat + tail), pat, rep) == head + (rep + tail)
  {
    ReplaceSkipsPrefix(head, pat + tail, pat, rep);
    ReplaceFrontOnly(pat, tail, rep);
  }

  /** No label of `labels` starts with a character of `s`, so nothing is rewritten. */
  lemma {:induction false} LabelsAbsentFrom(s: string, labels: seq<string>)
    requires forall k :: 0 <= k < |labels| ==> IsLabel(labels[k]) && labels[k][0] !in s
    ensures RewriteLabels(s, labels) == s
    decreases |labels|
  {
    if |labels| > 0 {
      var pat := labels[0] + ":";
      ReplaceSkipsPrefix(s, "", pat, labels[0] + ",");
      assert s + "" == s;
      LabelsAbsentFrom(s, labels[1..]);
    }
  }

  /** The display form of the worked example. */
  lemma DisplayExample()
    ensures DisplayForm("Family: Rosaceae\nOrigin: Asia") == "Family: Rosaceae<br>Origin: Asia"
  {
    ExampleSplit();
    ReplaceOneOccurrence("Family: Rosaceae", "\n", "Origin: Asia", "<br>");
    ExampleJoin();
  }

  /** The label pass keeps or demotes each colon: it becomes a comma exactly
      when one of the labels ends right before it in the text the pass receives. */
  lemma {:induction false} RewriteLabelsColon(s: string, labels: seq<string>, j: int)
    requires forall k :: 0 <= k < |labels| ==> IsLabel(labels[k])
    requires 0 <= j < |s| && s[j] == ':'
    ensures var r := RewriteLabels(s, labels);
            && j < |r|
            && (r[j] == ',' <==> SomeEndsAt(s, labels, j))
            && (r[j] != ',' ==> r[j] == ':')
    decreases |labels|
  {
    var r := RewriteLabels(s, labels);
    RewriteLabelsClears(s, labels);
    if |labels| > 0 {
      var name := labels[0];
      assert IsLabel(name);
      var pat := name + ":";
      assert pat == name + [':'] && name + "," == name + [','];
      assert pat[..|pat| - 1] + [','] == name + ",";
      var t := ReplaceAll(s, pat, name + ",");
      assert r == RewriteLabels(t, labels[1..]);
      ReplaceDemotes(s, pat, ',');
      ReplaceLastCharAt(s, name, ':', ',', j);
      RewriteLabelsClears(t, labels[1..]);
      SomeEndsAtSplit(s, labels, j);
      if t[j] == ':' {
        RewriteLabelsColon(t, labels[1..], j);
        forall k | 0 <= k < |labels[1..]|
          ensures ':' !in labels[1..][k] && ',' !in labels[1..][k]
        {
          assert IsLabel(labels[k + 1]);
        }
        SomeEndsAtDemoted(s, t, ':', ',', labels[1..], j);
      }
    }
  }

  /** Where a character of the description lands in the punctuation pass. */
  lemma PunctuatePositions(description: string, i: int)
    requires 0 <= i < |description|
    ensures var r := Punctuate(description);
            var o := i + CountChar(description[..i], '\n');
            && (description[i] == '\n' ==> o + 2 <= |r| && r[o] == '.' && r[o + 1] == ' ')
            && (description[i] == ';' ==> o < |r| && r[o] == ',')
            && (description[i] != '\n' && description[i] != ';' ==> o < |r| && r[o] == description[i])
  {
    PunctuationAt(description, i);
  }

  /** `PunctuatePositions`, stated on the two replacements themselves. */
  lemma PunctuationAt(description: string, i: int)
    requires 0 <= i < |description|
    ensures var r := ReplaceAll(ReplaceAll(description, "\n", ". "), ";", ",");
            var o := i + CountChar(description[..i], '\n');
            && (description[i] == '\n' ==> o + 2 <= |r| && r[o] == '.' && r[o + 1] == ' ')
            && (description[i] == ';' ==> o < |r| && r[o] == ',')
            && (description[i] != '\n' && description[i] != ';' ==> o < |r| && r[o] == description[i])
  {
    var sentences := ReplaceAll(description, "\n", ". ");
    var o := i + CountChar(description[..i], '\n');
    SentenceAt(description, i);
    if description[i] == '\n' {
      BreakPunctuated(sentences, o);
    } else {
      assert sentences[o] == description[i];
      CommaAt(sentences, o);
    }
  }

  /** The `. ` a line break became passes the second half unchanged. */
  lemma BreakPunctuated(sentences: string, o: int)
    requires 0 <= o && o + 2 <= |sentences| && sentences[o] == '.' && sentences[o + 1] == ' '
    ensures var r := ReplaceAll(sentences, ";", ",");
            o + 2 <= |r| && r[o] == '.' && r[o + 1] == ' '
  {
    CommaAt(sentences, o);
    CommaAt(sentences, o + 1);
  }

  /** The first half of the punctuation pass, position by position. */
  lemma SentenceAt(description: string, i: int)
    requires 0 <= i < |description|
    ensures var r := ReplaceAll(description, "\n", ". ");
            var o := i + CountChar(description[..i], '\n');
            && (description[i] == '\n' ==> o + 2 <= |r| && r[o] == '.' && r[o + 1] == ' ')
            && (description[i] != '\n' ==> o < |r| && r[o] == description[i])
  {
    var r := ReplaceAll(description, "\n", ". ");
    var n := CountChar(description[..i], '\n');
    ReplaceCharAt(description, '\n', ". ", i);
    assert i + n * (|". "| - 1) == i + n;
    if description[i] == '\n' {
      var o := i + n;
      assert r[o..o + 2] == ". ";
      assert r[o] == r[o..o + 2][0] && r[o + 1] == r[o..o + 2][1];
    }
  }

  /** The second half of the punctuation pass keeps every position. */
  lemma CommaAt(t: string, j: int)
    requires 0 <= j < |t|
    ensures var r := ReplaceAll(t, ";", ",");
            |r| == |t| && r[j] == (if t[j] == ';' then ',' else t[j])
  {
    var r := ReplaceAll(t, ";", ",");
    ReplaceCharAt(t, ';', ",", j);
    assert j + CountChar(t[..j], ';') * (|","| - 1) == j;
    if t[j] == ';' {
      assert r[j] == r[j..j + 1][0];
    }
  }

  /** The narration form character by character: a line break becomes `. `,
      a semicolon a comma, a colon stays a colon or becomes a comma, and every
      other character is copied, each at its place shifted by one per earlier
      line break. */
  lemma NarrationPositions(description: string, i: int)
    requires 0 <= i < |description|
    ensures var r := NarrationForm(description);
            var o := i + CountChar(description[..i], '\n');
            && (description[i] == '\n' ==> o + 2 <= |r| && r[o] == '.' && r[o + 1] == ' ')
            && (description[i] == ';' ==> o < |r| && r[o] == ',')
            && (description[i] == ':' ==> o < |r| && (r[o] == ':' || r[o] == ','))
            && (description[i] !in "\n;:" ==> o < |r| && r[o] == description[i])
  {
    var p := Punctuate(description);
    var o := i + CountChar(description[..i], '\n');
    PunctuatePositions(description, i);
    LabelsWellFormed();
    RewriteLabelsClears(p, Labels);
  }

  /** A colon of the description is narrated as a comma exactly when one of
      the seven labels ends right before it after the punctuation pass. */
  lemma NarrationColon(description: string, i: int)
    requires 0 <= i < |description| && description[i] == ':'
    ensures var r := NarrationForm(description);
            var o := i + CountChar(description[..i], '\n');
            && o < |r|
            && (r[o] == ',' <==> SomeEndsAt(Punctuate(description), Labels, o))
            && (r[o] != ',' ==> r[o] == ':')
  {
    PunctuatePositions(description, i);
    LabelsWellFormed();
    RewriteLabelsColon(Punctuate(description), Labels, i + CountChar(description[..i], '\n'));
  }

  /** A label written right before a colon in the description is narrated
      with a comma after it. */
  lemma LabelBeforeColon(description: string, i: int, k: int)
    requires 0 <= i < |description| && description[i] == ':'
    requires 0 <= k < |Labels| && EndsAt(description, Labels[k], i)
    ensures var r := NarrationForm(description);
            var o := i + CountChar(description[..i], '\n');
            o < |r| && r[o] == ','
  {
    var o := i + CountChar(description[..i], '\n');
    var p := Punctuate(description);
    var name := Labels[k];
    LabelWellFormed(k);
    assert '\n' !in name && ';' !in name;
    PunctuatedWord(description, name, i);
    PunctuatePositions(description, i);
    LabelsWellFormed();
    LabelMarkRewritten(p, Labels, o, k);
  }

  /** A colon right after one of the labels becomes a comma in the label pass. */
  lemma LabelMarkRewritten(s: string, labels: seq<string>, j: int, k: int)
    requires forall k :: 0 <= k < |labels| ==> IsLabel(labels[k])
    requires 0 <= j < |s| && s[j] == ':'
    requires 0 <= k < |labels| && EndsAt(s, labels[k], j)
    ensures j < |RewriteLabels(s, labels)| && RewriteLabels(s, labels)[j] == ','
  {
    RewriteLabelsColon(s, labels, j);
  }

  /** A word without line breaks or semicolons passes the punctuation pass
      unchanged, shifted like the character after it. */
  lemma PunctuatedWord(description: string, w: string, i: int)
    requires 0 <= i < |description| && EndsAt(description, w, i)
    requires '\n' !in w && ';' !in w
    ensures EndsAt(Punctuate(description), w, i + CountChar(description[..i], '\n'))
  {
    var p := Punctuate(description);
    var e := i + CountChar(description[..i], '\n');
    PunctuatePositions(description, i);
    forall k | 0 <= k < |w|
      ensures e - |w| + k < |p| && p[e - |w| + k] == w[k]
    {
      WordCharKept(description, w, i, k);
    }
    WordFromChars(p, w, e);
  }

  /** One character of such a word, at its shifted place. */
  lemma WordCharKept(description: string, w: string, i: int, k: int)
    requires 0 <= i < |description| && EndsAt(description, w, i)
    requires '\n' !in w && ';' !in w
    requires 0 <= k < |w|
    ensures var p := Punctuate(description);
            var e := i + CountChar(description[..i], '\n');
            e - |w| + k < |p| && p[e - |w| + k] == w[k]
  {
    var m := i - |w| + k;
    assert description[m] == description[i - |w|..i][k];
    assert description[m..i] == w[k..];
    SameBreaksBefore(description, m, i);
    PunctuatePositions(description, m);
  }

  /** A word spelled out character by character ends where its last character is. */
  lemma WordFromChars(s: string, w: string, e: int)
    requires |w| <= e <= |s|
    requires forall k :: 0 <= k < |w| ==> s[e - |w| + k] == w[k]
    ensures EndsAt(s, w, e)
  {
    assert s[e - |w|..e] == w;
  }

  /** No line break between `m` and `i` means the same count of them before both. */
  lemma SameBreaksBefore(description: string, m: int, i: int)
    requires 0 <= m <= i <= |description| && '\n' !in description[m..i]
    ensures CountChar(description[..m], '\n') == CountChar(description[..i], '\n')
  {
    assert description[..i] == description[..m] + description[m..i];
    CountCharAppend(description[..m], description[m..i], '\n');
  }
}
