/** The labels `collectFormProperties` files each selection under:
    `getFieldLabel`'s title-or-name rule and the `properties[...]` clean-up
    (assets/product-form-price-updater.js:264, :288-301). */
module Labels {
  import opened Wrappers
  import opened Text

  /** `word.charAt(0).toUpperCase() + word.slice(1)`; the empty word stays
      empty. */
  function Capitalise(w: string): (r: string)
    ensures |r| == |w|
    ensures w != [] ==> r[0] == UpperChar(w[0]) && r[1..] == w[1..]
  {
    if w == [] then [] else [UpperChar(w[0])] + w[1..]
  }

  /** A capitalised word does not start with a lower-case letter, the rest
      of it is kept, and a word that does not start with one is left as it
      is; so capitalising twice is capitalising once. */
  lemma CapitaliseUpper(w: string)
    ensures Capitalise(w) == [] || !('a' <= Capitalise(w)[0] <= 'z')
    ensures w == [] || !('a' <= w[0] <= 'z') ==> Capitalise(w) == w
    ensures w != [] && 'a' <= w[0] <= 'z' ==> 'A' <= Capitalise(w)[0] <= 'Z' && LowerChar(Capitalise(w)[0]) == w[0]
    ensures Capitalise(Capitalise(w)) == Capitalise(w)
  {
    if w != [] && !('a' <= w[0] <= 'z') {
      assert [w[0]] + w[1..] == w;
    }
    if w != [] {
      var c := Capitalise(w);
      assert [c[0]] + c[1..] == c;
    }
  }

  /** The fallback label: `name.split("-").map(Capitalise).join(" ")`. */
  function NameLabel(name: string): string
  {
    var words := Split(name, '-');
    Join(seq(|words|, k requires 0 <= k < |words| => Capitalise(words[k])), ' ')
  }

  /** Reference definition of the fallback label, one character at a time:
      every `-` becomes a space and every character that starts the name or
      follows a `-` is upper-cased. */
  function TitleCase(s: string): (r: string)
    ensures |r| == |s|
  {
    seq(|s|, i requires 0 <= i < |s| => TitleChar(s, i))
  }

  function TitleChar(s: string, i: nat): char
    requires i < |s|
  {
    if s[i] == '-' then ' '
    else if i == 0 || s[i - 1] == '-' then UpperChar(s[i])
    else s[i]
  }

  /** The left-to-right form of `TitleCase` the induction below follows;
      `atStart` says whether `s` begins a word. */
  function TitleCaseFrom(s: string, atStart: bool): (r: string)
    ensures |r| == |s|
  {
    if s == [] then []
    else [if s[0] == '-' then ' ' else if atStart then UpperChar(s[0]) else s[0]] + TitleCaseFrom(s[1..], s[0] == '-')
  }

  lemma {:induction false} TitleCaseFromPointwise(s: string, atStart: bool)
    ensures forall i {:trigger TitleCaseFrom(s, atStart)[i]} | 0 <= i < |s| ::
              TitleCaseFrom(s, atStart)[i] == if s[i] == '-' then ' '
                      else if (i == 0 && atStart) || (i > 0 && s[i - 1] == '-') then UpperChar(s[i])
                      else s[i]
  {
    if s != [] {
      TitleCaseFromPointwise(s[1..], s[0] == '-');
      var r := TitleCaseFrom(s, atStart);
      var rest := TitleCaseFrom(s[1..], s[0] == '-');
      forall i | 1 <= i < |s|
        ensures r[i] == if s[i] == '-' then ' '
                        else if (i == 0 && atStart) || (i > 0 && s[i - 1] == '-') then UpperChar(s[i])
                        else s[i]
      {
        assert r[i] == rest[i - 1] && s[1..][i - 1] == s[i];
        if i >= 2 {
          assert s[1..][i - 2] == s[i - 1];
        }
      }
    }
  }

  /** The words with all but possibly the first capitalised. */
  function CapitaliseWords(ws: seq<string>, first: bool): (r: seq<string>)
    ensures |r| == |ws|
  {
    seq(|ws|, k requires 0 <= k < |ws| => if k == 0 && !first then ws[k] else Capitalise(ws[k]))
  }

  lemma JoinHead(c: char, ws: seq<string>, sep: char)
    requires ws != []
    ensures Join([[c] + ws[0]] + ws[1..], sep) == [c] + Join(ws, sep)
  {
    var vs := [[c] + ws[0]] + ws[1..];
    assert vs[1..] == ws[1..];
  }

  lemma JoinEmptyHead(ws: seq<string>, sep: char)
    requires ws != []
    ensures Join([[]] + ws, sep) == [sep] + Join(ws, sep)
  {
    assert ([[]] + ws)[1..] == ws;
  }

  /** A leading `-` ends an empty first word. */
  lemma CapitaliseSplitDash(s: string, atStart: bool)
    requires s != [] && s[0] == '-'
    ensures Join(CapitaliseWords(Split(s, '-'), atStart), ' ') == [' '] + Join(CapitaliseWords(Split(s[1..], '-'), true), ' ')
  {
    var rest := Split(s[1..], '-');
    assert Split(s, '-') == [[]] + rest;
    assert CapitaliseWords([[]] + rest, atStart) == [[]] + CapitaliseWords(rest, true);
    JoinEmptyHead(CapitaliseWords(rest, true), ' ');
  }

  lemma SplitChar(s: string)
    requires s != [] && s[0] != '-'
    ensures var rest := Split(s[1..], '-');
            Split(s, '-') == [[s[0]] + rest[0]] + rest[1..]
  {
  }

  /** Capitalising a first word that gained a leading character `d`. */
  lemma CapitaliseWordsHead(d: char, ws: seq<string>, atStart: bool)
    requires ws != []
    ensures var c := if atStart then UpperChar(d) else d;
            var tail := CapitaliseWords(ws, false);
            CapitaliseWords([[d] + ws[0]] + ws[1..], atStart) == [[c] + tail[0]] + tail[1..]
  {
    var c := if atStart then UpperChar(d) else d;
    var tail := CapitaliseWords(ws, false);
    var vs := [[d] + ws[0]] + ws[1..];
    var lhs := CapitaliseWords(vs, atStart);
    var rhs := [[c] + tail[0]] + tail[1..];
    assert lhs[0] == rhs[0] by {
      if atStart {
        assert Capitalise(vs[0])[1..] == vs[0][1..];
      }
    }
    forall k | 1 <= k < |vs| ensures lhs[k] == rhs[k] {
      assert vs[k] == ws[k];
    }
  }

  /** Any other first character starts the first word. */
  lemma CapitaliseSplitChar(s: string, atStart: bool)
    requires s != [] && s[0] != '-'
    ensures Join(CapitaliseWords(Split(s, '-'), atStart), ' ')
         == [if atStart then UpperChar(s[0]) else s[0]] + Join(CapitaliseWords(Split(s[1..], '-'), false), ' ')
  {
    var rest := Split(s[1..], '-');
    var c := if atStart then UpperChar(s[0]) else s[0];
    SplitChar(s);
    CapitaliseWordsHead(s[0], rest, atStart);
    JoinHead(c, CapitaliseWords(rest, false), ' ');
  }

  lemma {:induction false} CapitaliseSplit(s: string, atStart: bool)
    ensures Join(CapitaliseWords(Split(s, '-'), atStart), ' ') == TitleCaseFrom(s, atStart)
    decreases |s|
  {
    if s != [] {
      CapitaliseSplit(s[1..], s[0] == '-');
      if s[0] == '-' {
        CapitaliseSplitDash(s, atStart);
      } else {
        CapitaliseSplitChar(s, atStart);
      }
    }
  }

  lemma TitleCaseFromStart(s: string)
    ensures TitleCaseFrom(s, true) == TitleCase(s)
  {
    TitleCaseFromPointwise(s, true);
    forall i | 0 <= i < |s| ensures TitleCaseFrom(s, true)[i] == TitleCase(s)[i] {
      assert TitleCase(s)[i] == TitleChar(s, i);
    }
  }

  /** The fallback label is the character-wise title case of the name. */
  lemma NameLabelIsTitleCase(name: string)
    ensures NameLabel(name) == TitleCase(name)
  {
    var words := Split(name, '-');
    assert seq(|words|, k requires 0 <= k < |words| => Capitalise(words[k])) == CapitaliseWords(words, true);
    CapitaliseSplit(name, true);
    TitleCaseFromStart(name);
  }

  /** The prefix `collectFormProperties` strips. */
  const GroupPrefix: string := "properties["

  /** `label.replace('properties[', '').replace(']', '')`: the first
      occurrence of each pattern is removed. */
  function CleanLabel(text: string): string
  {
    ReplaceFirst(ReplaceFirst(text, GroupPrefix, ""), "]", "")
  }

  lemma NoBracketNoOccurrence(s: string)
    requires ']' !in s
    ensures forall j | 0 <= j <= |s| :: !OccursAt(s, "]", j)
  {
    forall j | 0 <= j <= |s| ensures !OccursAt(s, "]", j) {
      if j < |s| {
        assert s[j] in s;
        assert s[j..j + 1][0] == s[j];
      }
    }
  }

  lemma ReplaceAt(s: string, p: string, rep: string, i: nat)
    requires OccursAt(s, p, i) && forall j | 0 <= j < i :: !OccursAt(s, p, j)
    ensures ReplaceFirst(s, p, rep) == s[..i] + rep + s[i + |p|..]
  {
  }

  /** A field name `properties[inner]` whose inner part has no `]` cleans to
      the inner part. */
  lemma CleanGroupName(inner: string)
    requires ']' !in inner
    ensures CleanLabel(GroupPrefix + inner + "]") == inner
  {
    var s := GroupPrefix + inner + "]";
    var s1 := inner + "]";
    assert s[..|GroupPrefix|] == GroupPrefix;
    ReplaceAt(s, GroupPrefix, "", 0);
    assert s[|GroupPrefix|..] == s1;
    assert ReplaceFirst(s, GroupPrefix, "") == s1;
    NoBracketNoOccurrence(inner);
    forall j | 0 <= j < |inner| ensures !OccursAt(s1, "]", j) {
      assert s1[j..j + 1] == inner[j..j + 1];
      assert !OccursAt(inner, "]", j);
    }
    assert s1[|inner|..|inner| + 1] == "]";
    ReplaceAt(s1, "]", "", |inner|);
    assert s1[..|inner|] == inner;
  }

  /** A label holding neither `properties[` nor `]`, such as a section
      title, is left as it is. */
  lemma CleanPlainLabel(text: string)
    requires ']' !in text
    requires forall j | 0 <= j <= |text| :: !OccursAt(text, GroupPrefix, j)
    ensures CleanLabel(text) == text
  {
    NoBracketNoOccurrence(text);
  }

  /** `getFieldLabel` (:288-301): the trimmed section title when the radio's
      section has one, else the title-cased name. */
  function FieldLabel(sectionTitle: Option<string>, name: string): (r: string)
    ensures sectionTitle.Some? ==> r == Trim(sectionTitle.value)
    ensures sectionTitle.None? ==> r == TitleCase(name)
  {
    NameLabelIsTitleCase(name);
    match sectionTitle
    case Some(t) => Trim(t)
    case None => NameLabel(name)
  }

  /** No occurrence of `properties[` in a string that does not start with
      `p` and has no `[` after position 10. */
  lemma NoGroupPrefix(s: string)
    requires s != [] && s[0] != 'p'
    requires forall i | 11 <= i < |s| :: s[i] != '['
    ensures forall j | 0 <= j <= |s| :: !OccursAt(s, GroupPrefix, j)
  {
    forall j | 0 <= j <= |s| ensures !OccursAt(s, GroupPrefix, j) {
      if j + |GroupPrefix| <= |s| {
        var w := s[j..j + |GroupPrefix|];
        assert w[0] == s[j] && w[10] == s[j + 10];
        assert GroupPrefix[0] == 'p' && GroupPrefix[10] == '[';
      }
    }
  }

  /** The title-cased fallback for `properties[inner]`: it starts with
      `Properties[`, has no `[` after that, and its only `]` is the last
      character. */
  lemma FallbackShape(inner: string)
    requires '[' !in inner && ']' !in inner
    ensures var name := GroupPrefix + inner + "]";
            var text := TitleCase(name);
            && |text| == |name| && text[..|GroupPrefix|] == "Properties["
            && (forall i | |GroupPrefix| <= i < |text| :: text[i] != '[')
            && (forall i | 0 <= i < |text| - 1 :: text[i] != ']')
            && text[|text| - 1] == ']'
  {
    var name := GroupPrefix + inner + "]";
    var text := TitleCase(name);
    var n := |name| - 1;
    assert forall i | 0 <= i < |GroupPrefix| :: name[i] == GroupPrefix[i];
    assert forall i | |GroupPrefix| <= i < n :: name[i] == inner[i - |GroupPrefix|];
    assert forall i | |GroupPrefix| <= i < n :: name[i] in inner;
    assert name[n] == ']';
    assert text[..|GroupPrefix|] == "Properties[";
  }

  /** The fallback upper-cases the `p` of `properties[`, so the clean-up no
      longer finds the prefix and removes only the closing bracket: a radio
      named `properties[inner]` without a section title is filed under
      `Properties[` followed by the title-cased inner part, not under the
      inner part. */
  lemma FallbackKeepsPrefix(inner: string)
    requires '[' !in inner && ']' !in inner
    ensures var name := GroupPrefix + inner + "]";
            var r := CleanLabel(FieldLabel(None, name));
            && r == TitleCase(name)[..|name| - 1]
            && |r| >= |GroupPrefix| && r[..|GroupPrefix|] == "Properties["
  {
    var name := GroupPrefix + inner + "]";
    var text := TitleCase(name);
    var n := |name| - 1;
    FallbackShape(inner);
    NoGroupPrefix(text);
    assert ReplaceFirst(text, GroupPrefix, "") == text;
    forall j | 0 <= j < n ensures !OccursAt(text, "]", j) {
      assert text[j..j + 1][0] == text[j];
    }
    assert text[n..n + 1] == "]";
    ReplaceAt(text, "]", "", n);
    assert text[..n][..|GroupPrefix|] == text[..|GroupPrefix|];
  }
}
