/** What the constructor leaves on the page (assets/product-form-price-updater.js:2-40):
    the first radio of every group is checked, the ledger is filled from the
    checked radios, the custom note is evaluated, and the sections are
    brought in line with the checked media radio. Listeners are attached
    after `checkFirstRadiosInGroups` has dispatched its events, so those
    events reach no handler; the later repair events do. */
module Startup {
  import opened Wrappers
  import opened Text
  import opened JsNumber
  import opened PriceText
  import opened OptionLedger
  import opened ProductForm
  import opened Visibility
  import opened Consistency

  /** Radio `j` is the first of its group in document order. */
  predicate FirstOfName(rs: seq<Radio>, j: nat)
    requires j < |rs|
  {
    forall i | 0 <= i < j :: rs[i].name != rs[j].name
  }

  /** The group names in order of first appearance, as the `Set` of
      `checkFirstRadiosInGroups` collects them. */
  function GroupNames(rs: seq<Radio>): (ns: seq<string>)
    ensures forall a, b | 0 <= a < b < |ns| :: ns[a] != ns[b]
    ensures forall j | 0 <= j < |rs| :: rs[j].name in ns
    ensures forall n | n in ns :: exists j | 0 <= j < |rs| :: rs[j].name == n
  {
    if rs == [] then []
    else
      var init := rs[..|rs| - 1];
      var ns := GroupNames(init);
      assert forall j | 0 <= j < |init| :: init[j] == rs[j];
      if rs[|rs| - 1].name in ns then ns else ns + [rs[|rs| - 1].name]
  }

  /** The first radio named `n`: what `querySelector` returns for
      `input[type="radio"][name="n"]`. */
  function FirstNamed(rs: seq<Radio>, n: string): (r: Option<nat>)
    ensures r.Some? ==> r.value < |rs| && rs[r.value].name == n && FirstOfName(rs, r.value)
    ensures r.None? ==> forall j | 0 <= j < |rs| :: rs[j].name != n
  {
    if rs == [] then None
    else
      match FirstNamed(rs[..|rs| - 1], n)
      case Some(j) => Some(j)
      case None => if rs[|rs| - 1].name == n then Some(|rs| - 1) else None
  }

  /** One round of the loop below: checking the first radio named `n`
      settles group `n` and leaves every other group alone. */
  lemma CheckGroupStep(rs: seq<Radio>, r: seq<Radio>, done: set<string>, n: string, i: nat)
    requires |r| == |rs| && i < |rs| && rs[i].name == n && FirstOfName(rs, i)
    requires forall j | 0 <= j < |rs| :: r[j] == rs[j].(checked := r[j].checked)
    requires forall j | 0 <= j < |rs| && rs[j].name in done :: r[j].checked == FirstOfName(rs, j)
    requires forall j | 0 <= j < |rs| && rs[j].name !in done :: r[j].checked == rs[j].checked
    ensures var r' := Check(r, i);
            && |r'| == |rs|
            && (forall j | 0 <= j < |rs| :: r'[j] == rs[j].(checked := r'[j].checked))
            && (forall j | 0 <= j < |rs| && rs[j].name in done + {n} :: r'[j].checked == FirstOfName(rs, j))
            && (forall j | 0 <= j < |rs| && rs[j].name !in done + {n} :: r'[j].checked == rs[j].checked)
  {
    var r' := Check(r, i);
    forall j | 0 <= j < |rs| && rs[j].name == n ensures r'[j].checked == FirstOfName(rs, j) {
      if j > i {
        assert !FirstOfName(rs, j) by {
          assert rs[i].name == rs[j].name;
        }
      }
    }
  }

  /** `checkFirstRadiosInGroups` (:51-75): for each group, in order of first
      appearance, check its first radio; the browser unchecks the rest of the
      group. Afterwards a radio is checked exactly when it is the first of its
      group. */
  method CheckFirstRadiosInGroups(rs: seq<Radio>) returns (r: seq<Radio>)
    ensures |r| == |rs|
    ensures forall j | 0 <= j < |rs| :: r[j] == rs[j].(checked := FirstOfName(rs, j))
  {
    var names := GroupNames(rs);
    r := rs;
    var k := 0;
    ghost var done: set<string> := {};
    while k < |names|
      invariant k <= |names|
      invariant forall a | 0 <= a < k :: names[a] in done
      invariant |r| == |rs|
      invariant forall j | 0 <= j < |rs| :: r[j] == rs[j].(checked := r[j].checked)
      invariant forall j | 0 <= j < |rs| && rs[j].name in done :: r[j].checked == FirstOfName(rs, j)
      invariant forall j | 0 <= j < |rs| && rs[j].name !in done :: r[j].checked == rs[j].checked
    {
      var n := names[k];
      assert n in names;
      var first := FirstNamed(r, n);
      assert forall j | 0 <= j < |rs| :: r[j].name == rs[j].name;
      var i := first.value;
      CheckGroupStep(rs, r, done, n, i);
      r := Check(r, i);
      forall a | 0 <= a < k + 1 ensures names[a] in done + {n} {
        if a == k {
          assert names[a] == n;
        }
      }
      done := done + {n};
      k := k + 1;
    }
    forall j | 0 <= j < |rs| ensures rs[j].name in done {
      assert rs[j].name in names;
    }
  }

  /** Some checked radio of `rs` with price text belongs to group `k`. */
  predicate PricedIn(rs: seq<Radio>, k: string)
  {
    exists i | 0 <= i < |rs| :: rs[i].checked && rs[i].priceText.Some? && rs[i].name == k
  }

  lemma PricedInSnoc(rs: seq<Radio>, k: string)
    requires rs != []
    ensures var last := rs[|rs| - 1];
            PricedIn(rs, k) <==> PricedIn(rs[..|rs| - 1], k) || (last.checked && last.priceText.Some? && last.name == k)
  {
    var init := rs[..|rs| - 1];
    assert forall i | 0 <= i < |init| :: init[i] == rs[i];
  }

  /** `initializeSelectedOptions` (:195-211) on the empty ledger the
      constructor starts with: every checked radio with price text, in
      document order, sets its group's entry to the extracted price; nothing
      is deleted. */
  function InitSelectedOptions(rs: seq<Radio>): (r: Ledger)
    ensures forall k :: k in ToMap(r) <==> PricedIn(rs, k)
  {
    if rs == [] then []
    else
      var init := rs[..|rs| - 1];
      var last := rs[|rs| - 1];
      var l := InitSelectedOptions(init);
      forall k ensures PricedIn(rs, k) <==> PricedIn(init, k) || (last.checked && last.priceText.Some? && last.name == k) {
        PricedInSnoc(rs, k);
      }
      if last.checked && last.priceText.Some? then
        SetView(l, last.name, Val(ExtractPrice(last.priceText.value)));
        Set(l, last.name, Val(ExtractPrice(last.priceText.value)))
      else l
  }

  /** The last radio's step of `InitSelectedOptions` on the map view. */
  lemma InitSelectedOptionsSnoc(rs: seq<Radio>)
    requires rs != []
    ensures var last := rs[|rs| - 1];
            var m := ToMap(InitSelectedOptions(rs[..|rs| - 1]));
            ToMap(InitSelectedOptions(rs)) ==
              if last.checked && last.priceText.Some? then m[last.name := Val(ExtractPrice(last.priceText.value))] else m
  {
    var last := rs[|rs| - 1];
    if last.checked && last.priceText.Some? {
      SetView(InitSelectedOptions(rs[..|rs| - 1]), last.name, Val(ExtractPrice(last.priceText.value)));
    }
  }

  /** With at most one checked radio per group, each checked, priced group
      ends at its radio's extracted price. */
  lemma {:induction false} InitSelectedOptionsPrices(rs: seq<Radio>)
    requires AtMostOneChecked(rs)
    ensures forall i | 0 <= i < |rs| && rs[i].checked && rs[i].priceText.Some? ::
      ToMap(InitSelectedOptions(rs))[rs[i].name] == Val(ExtractPrice(rs[i].priceText.value))
  {
    if rs != [] {
      var n := |rs| - 1;
      var init := rs[..n];
      var last := rs[n];
      assert AtMostOneChecked(init) by {
        assert forall i | 0 <= i < |init| :: init[i] == rs[i];
      }
      InitSelectedOptionsPrices(init);
      InitSelectedOptionsSnoc(rs);
      var before := ToMap(InitSelectedOptions(init));
      var m := ToMap(InitSelectedOptions(rs));
      forall i | 0 <= i < |rs| && rs[i].checked && rs[i].priceText.Some?
        ensures m[rs[i].name] == Val(ExtractPrice(rs[i].priceText.value))
      {
        var key := rs[i].name;
        if i == n {
          assert last.checked && last.priceText.Some?;
        } else {
          assert init[i] == rs[i];
          assert before[key] == Val(ExtractPrice(rs[i].priceText.value));
          if last.checked && last.priceText.Some? {
            assert key != last.name;
            assert m[key] == before[key];
          } else {
            assert m == before;
          }
        }
      }
    }
  }

  /** Some radio named `name` is checked. */
  predicate HasChecked(rs: seq<Radio>, name: string)
  {
    exists i | 0 <= i < |rs| :: rs[i].checked && rs[i].name == name
  }

  /** Every group that has a radio has a checked one. */
  predicate GroupsChecked(rs: seq<Radio>)
  {
    forall j | 0 <= j < |rs| :: HasChecked(rs, rs[j].name)
  }

  /** `GroupsChecked` reads only names and checked flags. */
  lemma GroupsCheckedLocal(rs: seq<Radio>, ss: seq<Radio>)
    requires |rs| == |ss| && GroupsChecked(rs)
    requires forall j | 0 <= j < |rs| :: ss[j].name == rs[j].name && ss[j].checked == rs[j].checked
    ensures GroupsChecked(ss)
  {
    forall j | 0 <= j < |ss| ensures HasChecked(ss, ss[j].name) {
      assert HasChecked(rs, rs[j].name);
      var a :| 0 <= a < |rs| && rs[a].checked && rs[a].name == rs[j].name;
      assert ss[a].checked && ss[a].name == ss[j].name;
    }
  }

  lemma SelectRadioKeepsGroupsChecked(f: Form, i: nat)
    requires i < |f.radios| && GroupsChecked(f.radios)
    ensures GroupsChecked(SelectRadio(f, i).radios)
  {
    var rs := f.radios;
    var r := SelectRadio(f, i).radios;
    forall j | 0 <= j < |r| ensures HasChecked(r, r[j].name) {
      if rs[j].name == rs[i].name {
        assert r[i].checked && r[i].name == r[j].name;
      } else {
        assert HasChecked(rs, rs[j].name);
        var a :| 0 <= a < |rs| && rs[a].checked && rs[a].name == rs[j].name;
        assert r[a] == rs[a];
      }
    }
  }

  lemma RepairKeepsGroupsChecked(g: Form, group: string)
    requires GroupsChecked(g.radios)
    ensures GroupsChecked(Repair(g, group).radios)
  {
    if NeedsRepair(g.radios, group) {
      SelectRadioKeepsGroupsChecked(g, First(g.radios, ShownIn(group)).value);
    }
  }

  /** Showing and hiding radios does not change which are checked. */
  lemma RevealKeepsGroupsChecked(rs: seq<Radio>, group: string, rule: Rule)
    requires GroupsChecked(rs)
    ensures GroupsChecked(Reveal(rs, group, rule))
  {
    GroupsCheckedLocal(rs, Reveal(rs, group, rule));
  }

  lemma FilterKeepsGroupsChecked(f: Form, t: Option<string>)
    requires GroupsChecked(f.radios)
    ensures GroupsChecked(FilterDisplayOptions(f, t).radios)
  {
    var g := f.(radios := Reveal(f.radios, DisplayGroup, ByDataType(t)));
    RevealKeepsGroupsChecked(f.radios, DisplayGroup, ByDataType(t));
    RepairKeepsGroupsChecked(g, DisplayGroup);
  }

  lemma ServiceKeepsGroupsChecked(f: Form, t: Option<string>)
    requires GroupsChecked(f.radios)
    ensures GroupsChecked(UpdateServiceTypeVisibility(f, t).radios)
  {
    var g := f.(radios := Reveal(f.radios, ServiceGroup, ByAllowedTypes(t)));
    RevealKeepsGroupsChecked(f.radios, ServiceGroup, ByAllowedTypes(t));
    RepairKeepsGroupsChecked(g, ServiceGroup);
  }

  lemma RevealKeepsExclusive(rs: seq<Radio>, group: string, rule: Rule)
    requires AtMostOneChecked(rs)
    ensures AtMostOneChecked(Reveal(rs, group, rule))
  {
  }

  lemma RepairKeepsExclusive(g: Form, group: string)
    requires AtMostOneChecked(g.radios)
    ensures AtMostOneChecked(Repair(g, group).radios)
  {
    if NeedsRepair(g.radios, group) {
      SelectRadioExclusive(g, First(g.radios, ShownIn(group)).value);
    }
  }

  lemma FilterKeepsExclusive(f: Form, t: Option<string>)
    requires AtMostOneChecked(f.radios)
    ensures AtMostOneChecked(FilterDisplayOptions(f, t).radios)
  {
    var g := f.(radios := Reveal(f.radios, DisplayGroup, ByDataType(t)));
    RevealKeepsExclusive(f.radios, DisplayGroup, ByDataType(t));
    RepairKeepsExclusive(g, DisplayGroup);
  }

  lemma ServiceKeepsExclusive(f: Form, t: Option<string>)
    requires AtMostOneChecked(f.radios)
    ensures AtMostOneChecked(UpdateServiceTypeVisibility(f, t).radios)
  {
    var g := f.(radios := Reveal(f.radios, ServiceGroup, ByAllowedTypes(t)));
    RevealKeepsExclusive(f.radios, ServiceGroup, ByAllowedTypes(t));
    RepairKeepsExclusive(g, ServiceGroup);
  }

  /** The markup contract of the page before any script runs. */
  predicate PageMarkup(radios: seq<Radio>, keyhole: Option<MountSection>)
  {
    Markup(Form(radios, keyhole, None, [], Val(0.0), None))
  }

  /** No keyhole checkbox is checked in the markup. */
  predicate NoMountPrechecked(keyhole: Option<MountSection>)
  {
    keyhole.Some? ==> forall j | 0 <= j < |keyhole.value.mounts| :: !keyhole.value.mounts[j].checked
  }

  /** The form right after `checkFirstRadiosInGroups`,
      `initializeSelectedOptions` and `handleCustomNoteVisibility`. */
  lemma FilledFormConsistent(rs: seq<Radio>, keyhole: Option<MountSection>, note: Option<NoteSection>, base: Num)
    requires PageMarkup(rs, keyhole) && NoMountPrechecked(keyhole) && AtMostOneChecked(rs)
    ensures var f := NoteVisibility(Form(rs, keyhole, note, InitSelectedOptions(rs), base, Some(Records)));
            Markup(f) && Consistent(f)
  {
    var f0 := Form(rs, keyhole, note, InitSelectedOptions(rs), base, Some(Records));
    var f := NoteVisibility(f0);
    var m := ToMap(f.ledger);
    InitSelectedOptionsPrices(rs);
    assert Mounts(f) == Mounts(Form(rs, keyhole, None, [], Val(0.0), None));
    forall i | 0 <= i < |rs| ensures RadioMirrored(m, rs[i]) {
      if rs[i].checked {
        assert rs[i].name in m <==> PricedIn(rs, rs[i].name);
      }
    }
    forall k | k in m ensures Accounted(f, k) && k != SliderKey && !IsMountKey(k) {
      assert PricedIn(rs, k);
    }
    forall j | 0 <= j < |Mounts(f)| ensures MountMirrored(m, Mounts(f)[j]) {
      MountKeyIsMountKey(Mounts(f)[j].value);
    }
  }

  /** The first radio of the media-type group: the one checked at start-up. */
  function StartMedia(rs: seq<Radio>): Option<nat>
  {
    FirstNamed(rs, MediaGroup)
  }

  lemma CheckedMediaIsFirst(radios: seq<Radio>, rs: seq<Radio>)
    requires |rs| == |radios|
    requires forall j | 0 <= j < |radios| :: rs[j] == radios[j].(checked := FirstOfName(radios, j))
    ensures First(rs, CheckedIn(MediaGroup)) == StartMedia(radios)
  {
    var c := First(rs, CheckedIn(MediaGroup));
    var s := StartMedia(radios);
    if s.Some? {
      assert Hits(CheckedIn(MediaGroup), rs[s.value]);
      assert c.Some? && c.value <= s.value;
      assert FirstOfName(radios, c.value);
      assert radios[s.value].name == radios[c.value].name;
      assert c.value == s.value;
    }
  }

  /** The three start-up calls for a checked media radio of type `t`
      (:315-322, :340-347, :375-380): filter, toggle, toggle again, update
      the service types. The second toggle changes nothing, so the effect is
      that of one media change. */
  function StartupMediaUpdates(f: Form, t: Option<string>): (r: Form)
    ensures r == ApplyMediaType(f, t)
  {
    var a := FilterDisplayOptions(f, t);
    var b := ToggleKeyholeMounts(a, t);
    ToggleFixesSettled(b, t);
    UpdateServiceTypeVisibility(ToggleKeyholeMounts(b, t), t)
  }

  lemma StartupMediaUpdatesKeep(f: Form, t: Option<string>)
    requires GroupsChecked(f.radios) && AtMostOneChecked(f.radios)
    ensures var r := ApplyMediaType(f, t);
            && GroupsChecked(r.radios) && AtMostOneChecked(r.radios)
            && MediaSettled(r, t)
            && |r.radios| == |f.radios|
            && (forall j | 0 <= j < |f.radios| :: r.radios[j] == f.radios[j].(shown := r.radios[j].shown, checked := r.radios[j].checked))
            && (forall j | 0 <= j < |f.radios| && f.radios[j].name == MediaGroup :: r.radios[j] == f.radios[j])
    ensures Markup(f) && Consistent(f) ==> Consistent(ApplyMediaType(f, t))
  {
    ApplyMediaTypeSettles(f, t);
    var a := FilterDisplayOptions(f, t);
    var b := ToggleKeyholeMounts(a, t);
    FilterKeepsGroupsChecked(f, t);
    ServiceKeepsGroupsChecked(b, t);
    FilterKeepsExclusive(f, t);
    ServiceKeepsExclusive(b, t);
    if Markup(f) && Consistent(f) {
      ApplyMediaTypeConsistent(f, t);
    }
  }

  /** What `checkFirstRadiosInGroups` leaves: every group checked, at most
      one radio per group checked, the same names, and the first media radio
      the checked one. */
  lemma CheckFirstFacts(radios: seq<Radio>, rs: seq<Radio>, keyhole: Option<MountSection>)
    requires |rs| == |radios|
    requires forall j | 0 <= j < |radios| :: rs[j] == radios[j].(checked := FirstOfName(radios, j))
    ensures GroupsChecked(rs) && AtMostOneChecked(rs)
    ensures PageMarkup(radios, keyhole) ==> PageMarkup(rs, keyhole)
    ensures First(rs, CheckedIn(MediaGroup)) == StartMedia(radios)
  {
    CheckFirstGroupsChecked(radios, rs);
    CheckFirstExclusive(radios, rs);
    CheckFirstMarkup(radios, rs, keyhole);
    CheckedMediaIsFirst(radios, rs);
  }

  lemma CheckFirstMarkup(radios: seq<Radio>, rs: seq<Radio>, keyhole: Option<MountSection>)
    requires |rs| == |radios|
    requires forall j | 0 <= j < |radios| :: rs[j].name == radios[j].name
    ensures PageMarkup(radios, keyhole) ==> PageMarkup(rs, keyhole)
  {
    var f := Form(radios, keyhole, None, [], Val(0.0), None);
    var g := Form(rs, keyhole, None, [], Val(0.0), None);
    assert Mounts(f) == Mounts(g);
  }

  lemma CheckFirstGroupsChecked(radios: seq<Radio>, rs: seq<Radio>)
    requires |rs| == |radios|
    requires forall j | 0 <= j < |radios| :: rs[j] == radios[j].(checked := FirstOfName(radios, j))
    ensures GroupsChecked(rs)
  {
    forall j | 0 <= j < |rs| ensures HasChecked(rs, rs[j].name) {
      var i := FirstNamed(radios, radios[j].name).value;
      assert rs[i].checked && rs[i].name == rs[j].name;
    }
  }

  lemma CheckFirstExclusive(radios: seq<Radio>, rs: seq<Radio>)
    requires |rs| == |radios|
    requires forall j | 0 <= j < |radios| :: rs[j] == radios[j].(checked := FirstOfName(radios, j))
    ensures AtMostOneChecked(rs)
  {
    forall i, j | 0 <= i < |rs| && 0 <= j < |rs| && rs[i].checked && rs[j].checked && rs[i].name == rs[j].name
      ensures i == j
    {
      assert FirstOfName(radios, i) && FirstOfName(radios, j);
    }
  }

  /** The form once the initial selections are recorded: only the note's
      visibility differs from the filled-in form. */
  function Filled(rs: seq<Radio>, keyhole: Option<MountSection>, note: Option<NoteSection>, base: Num): (f: Form)
    ensures f.radios == rs && f.keyhole == keyhole && f.base == base && f.mediaType == Some(Records)
  {
    NoteVisibility(Form(rs, keyhole, note, InitSelectedOptions(rs), base, Some(Records)))
  }

  /** The media step keeps every radio's markup and the media radios' flags. */
  lemma MediaStepFacts(radios: seq<Radio>, rs: seq<Radio>, f: Form, t: Option<string>)
    requires |rs| == |radios| && f.radios == rs
    requires forall j | 0 <= j < |radios| :: rs[j] == radios[j].(checked := FirstOfName(radios, j))
    requires GroupsChecked(rs) && AtMostOneChecked(rs)
    ensures var r := ApplyMediaType(f, t);
            && |r.radios| == |radios|
            && (forall j | 0 <= j < |radios| :: r.radios[j] == radios[j].(shown := r.radios[j].shown, checked := r.radios[j].checked))
            && (forall j | 0 <= j < |radios| && radios[j].name == MediaGroup :: r.radios[j].checked == FirstOfName(radios, j))
            && GroupsChecked(r.radios) && AtMostOneChecked(r.radios) && MediaSettled(r, t)
  {
    StartupMediaUpdatesKeep(f, t);
  }

  /** The constructor and `init` (:2-40), given the base-price element's
      text, the form's radios, the keyhole-mounts section and the custom-note
      section as the markup has them. `currentMediaType` is set to `records`
      and never updated from the checked media radio. */
  method Construct(priceText: Option<string>, radios: seq<Radio>, keyhole: Option<MountSection>, note: Option<NoteSection>)
    returns (f: Form)
    ensures f.base == BasePrice(priceText)
    ensures f.mediaType == Some(Records)
    ensures |f.radios| == |radios|
    ensures forall j | 0 <= j < |radios| :: f.radios[j] == radios[j].(shown := f.radios[j].shown, checked := f.radios[j].checked)
    ensures GroupsChecked(f.radios) && AtMostOneChecked(f.radios)
    ensures forall j | 0 <= j < |radios| && radios[j].name == MediaGroup :: f.radios[j].checked == FirstOfName(radios, j)
    ensures StartMedia(radios).Some? ==> MediaSettled(f, radios[StartMedia(radios).value].dataType)
    ensures StartMedia(radios).None? ==>
      f.keyhole == keyhole && forall j | 0 <= j < |radios| :: f.radios[j] == radios[j].(checked := FirstOfName(radios, j))
    ensures PageMarkup(radios, keyhole) && NoMountPrechecked(keyhole) ==> Consistent(f)
  {
    var rs := CheckFirstRadiosInGroups(radios);
    CheckFirstFacts(radios, rs, keyhole);
    var base := BasePrice(priceText);
    f := Filled(rs, keyhole, note, base);
    var ok := PageMarkup(radios, keyhole) && NoMountPrechecked(keyhole);
    if ok {
      FilledFormConsistent(rs, keyhole, note, base);
    }
    var c := First(rs, CheckedIn(MediaGroup));
    if c.Some? {
      f := MediaStep(radios, rs, f, rs[c.value].dataType);
    }
  }

  /** The media step of the constructor, with what `Construct` needs of it. */
  method MediaStep(radios: seq<Radio>, rs: seq<Radio>, f: Form, t: Option<string>) returns (r: Form)
    requires |rs| == |radios| && f.radios == rs
    requires forall j | 0 <= j < |radios| :: rs[j] == radios[j].(checked := FirstOfName(radios, j))
    requires GroupsChecked(rs) && AtMostOneChecked(rs)
    ensures |r.radios| == |radios|
    ensures forall j | 0 <= j < |radios| :: r.radios[j] == radios[j].(shown := r.radios[j].shown, checked := r.radios[j].checked)
    ensures forall j | 0 <= j < |radios| && radios[j].name == MediaGroup :: r.radios[j].checked == FirstOfName(radios, j)
    ensures GroupsChecked(r.radios) && AtMostOneChecked(r.radios) && MediaSettled(r, t)
    ensures r.base == f.base && r.mediaType == f.mediaType
    ensures Markup(f) && Consistent(f) ==> Consistent(r)
  {
    MediaStepFacts(radios, rs, f, t);
    StartupMediaUpdatesKeep(f, t);
    r := StartupMediaUpdates(f, t);
  }
}
