/** The bookkeeping invariant of `ProductFormPriceUpdater`: the option ledger
    mirrors the form. Each checked radio contributes its extracted price under
    its group name, or nothing when it has no price text. Each checked
    keyhole mount contributes its `data-price` under `keyhole-mount-<value>`.
    Nothing else is in the ledger except the slider entry, which is never
    negative. Every handler keeps this invariant, provided the markup keeps
    the three kinds of key apart. */
module Consistency {
  import opened Wrappers
  import opened Text
  import opened JsNumber
  import opened PriceText
  import opened OptionLedger
  import opened ProductForm
  import opened Visibility

  /** A key of the `keyhole-mount-` family. */
  predicate IsMountKey(k: string)
  {
    |MountKeyPrefix| <= |k| && k[..|MountKeyPrefix|] == MountKeyPrefix
  }

  lemma MountKeyIsMountKey(v: string)
    ensures IsMountKey(MountKey(v))
  {
    assert MountKey(v)[..|MountKeyPrefix|] == MountKeyPrefix;
  }

  /** `sliderPrice` is too short to be a mount key. */
  lemma SliderKeyApart()
    ensures !IsMountKey(SliderKey)
    ensures forall v :: MountKey(v) != SliderKey
  {
    forall v ensures MountKey(v) != SliderKey {
      assert |MountKey(v)| > |SliderKey|;
    }
  }

  /** The keyhole mounts of the page; none when it has no section. */
  function Mounts(f: Form): seq<Mount>
  {
    if f.keyhole.Some? then f.keyhole.value.mounts else []
  }

  /** What the markup has to guarantee for the three kinds of ledger key to
      stay apart: no radio group is called `sliderPrice` or starts with
      `keyhole-mount-`, and no two mounts share a value. */
  predicate Markup(f: Form)
  {
    && (forall i | 0 <= i < |f.radios| :: f.radios[i].name != SliderKey && !IsMountKey(f.radios[i].name))
    && (forall i, j | 0 <= i < j < |Mounts(f)| :: Mounts(f)[i].value != Mounts(f)[j].value)
  }

  /** `g` differs from `f` at most in which radios are shown or checked and
      which mounts are checked. */
  predicate SameMarkup(f: Form, g: Form)
  {
    && |g.radios| == |f.radios|
    && (forall j | 0 <= j < |f.radios| :: g.radios[j] == f.radios[j].(shown := g.radios[j].shown, checked := g.radios[j].checked))
    && |Mounts(g)| == |Mounts(f)|
    && (forall j | 0 <= j < |Mounts(f)| :: Mounts(g)[j] == Mounts(f)[j].(checked := Mounts(g)[j].checked))
  }

  lemma MarkupKept(f: Form, g: Form)
    requires Markup(f) && SameMarkup(f, g)
    ensures Markup(g)
  {
  }

  /** Radio-group exclusivity: at most one checked radio per name. */
  predicate AtMostOneChecked(rs: seq<Radio>)
  {
    forall i, j | 0 <= i < |rs| && 0 <= j < |rs| && rs[i].checked && rs[j].checked && rs[i].name == rs[j].name :: i == j
  }

  /** A checked radio's ledger entry is its extracted price, or absent when
      it has no price text. */
  predicate RadioMirrored(m: map<string, Num>, r: Radio)
  {
    r.checked ==>
      && (r.name in m <==> r.priceText.Some?)
      && (r.priceText.Some? ==> m[r.name] == Val(ExtractPrice(r.priceText.value)))
  }

  /** A checked mount's entry is its `data-price`; an unchecked mount has
      none. */
  predicate MountMirrored(m: map<string, Num>, mt: Mount)
  {
    if mt.checked then MountKey(mt.value) in m && m[MountKey(mt.value)] == MountPrice(mt.price)
    else MountKey(mt.value) !in m
  }

  /** Every ledger key belongs to the slider, a checked radio or a checked
      mount. */
  predicate Accounted(f: Form, k: string)
  {
    || k == SliderKey
    || (exists i | 0 <= i < |f.radios| :: f.radios[i].checked && f.radios[i].name == k)
    || (exists j | 0 <= j < |Mounts(f)| :: Mounts(f)[j].checked && MountKey(Mounts(f)[j].value) == k)
  }

  predicate SliderMirrored(m: map<string, Num>)
  {
    SliderKey in m ==> m[SliderKey].Val? && m[SliderKey].v >= 0.0
  }

  /** The custom-note section agrees with the display selection. */
  predicate NoteAgrees(f: Form)
  {
    f.note.Some? ==> f.note.value.shown == WantsNote(f.radios)
  }

  predicate LedgerMirrored(f: Form)
  {
    var m := ToMap(f.ledger);
    && (forall i | 0 <= i < |f.radios| :: RadioMirrored(m, f.radios[i]))
    && (forall j | 0 <= j < |Mounts(f)| :: MountMirrored(m, Mounts(f)[j]))
    && (forall k | k in m :: Accounted(f, k))
    && SliderMirrored(m)
  }

  predicate Consistent(f: Form)
  {
    AtMostOneChecked(f.radios) && LedgerMirrored(f) && NoteAgrees(f)
  }

  /** In a consistent form the total is NaN exactly when the base price or a
      checked mount's `data-price` is, since radio and slider entries are
      always numbers. */
  lemma TotalNaNOnlyFromBaseOrMount(f: Form)
    requires Markup(f) && Consistent(f)
    ensures TotalPrice(f).NaN? <==>
      f.base.NaN? || exists j | 0 <= j < |Mounts(f)| :: Mounts(f)[j].checked && MountPrice(Mounts(f)[j].price).NaN?
  {
    var m := ToMap(f.ledger);
    TotalIsClampedSum(f.base, f.ledger);
    forall k | k in m && m[k].NaN?
      ensures exists j | 0 <= j < |Mounts(f)| :: Mounts(f)[j].checked && MountPrice(Mounts(f)[j].price).NaN?
    {
      assert Accounted(f, k);
      forall i | 0 <= i < |f.radios| && f.radios[i].checked
        ensures f.radios[i].name != k
      {
        assert RadioMirrored(m, f.radios[i]);
      }
    }
    if exists j | 0 <= j < |Mounts(f)| :: Mounts(f)[j].checked && MountPrice(Mounts(f)[j].price).NaN? {
      var j :| 0 <= j < |Mounts(f)| && Mounts(f)[j].checked && MountPrice(Mounts(f)[j].price).NaN?;
      assert MountMirrored(m, Mounts(f)[j]);
    }
  }

  /** `WantsNote` reads only the display-preference radios. */
  lemma WantsNoteLocal(rs: seq<Radio>, ss: seq<Radio>)
    requires |rs| == |ss|
    requires forall j | 0 <= j < |rs| && (rs[j].name == DisplayGroup || ss[j].name == DisplayGroup) :: rs[j] == ss[j]
    ensures WantsNote(rs) == WantsNote(ss)
  {
    FirstAgrees(rs, ss, CheckedIn(DisplayGroup));
  }

  /** Keys of a radio group never collide with mount or slider keys. */
  lemma RadioKeyApart(f: Form, i: nat)
    requires Markup(f) && i < |f.radios|
    ensures f.radios[i].name != SliderKey
    ensures forall j | 0 <= j < |Mounts(f)| :: MountKey(Mounts(f)[j].value) != f.radios[i].name
  {
    forall j | 0 <= j < |Mounts(f)| ensures MountKey(Mounts(f)[j].value) != f.radios[i].name {
      MountKeyIsMountKey(Mounts(f)[j].value);
    }
  }

  lemma SelectRadioExclusive(f: Form, i: nat)
    requires i < |f.radios| && AtMostOneChecked(f.radios)
    ensures AtMostOneChecked(SelectRadio(f, i).radios)
  {
    var r := SelectRadio(f, i);
    forall j | 0 <= j < |r.radios| && r.radios[j].checked && r.radios[j].name != f.radios[i].name
      ensures f.radios[j].checked
    {
    }
  }

  lemma SelectRadioMirrorsRadios(f: Form, i: nat)
    requires i < |f.radios| && LedgerMirrored(f)
    ensures var r := SelectRadio(f, i);
            forall j | 0 <= j < |r.radios| :: RadioMirrored(ToMap(r.ledger), r.radios[j])
  {
    var r := SelectRadio(f, i);
    var m, m' := ToMap(f.ledger), ToMap(r.ledger);
    forall j | 0 <= j < |r.radios|
      ensures RadioMirrored(m', r.radios[j])
    {
      if r.radios[j].checked && j != i {
        assert RadioMirrored(m, f.radios[j]);
      }
    }
  }

  lemma SelectRadioMirrorsMounts(f: Form, i: nat)
    requires i < |f.radios| && Markup(f) && LedgerMirrored(f)
    ensures var r := SelectRadio(f, i);
            forall j | 0 <= j < |Mounts(r)| :: MountMirrored(ToMap(r.ledger), Mounts(r)[j])
    ensures SliderMirrored(ToMap(SelectRadio(f, i).ledger))
  {
    var r := SelectRadio(f, i);
    RadioKeyApart(f, i);
    assert Mounts(r) == Mounts(f);
    forall j | 0 <= j < |Mounts(r)|
      ensures MountMirrored(ToMap(r.ledger), Mounts(r)[j])
    {
      assert MountMirrored(ToMap(f.ledger), Mounts(f)[j]);
    }
  }

  lemma SelectRadioAccounts(f: Form, i: nat)
    requires i < |f.radios| && LedgerMirrored(f)
    ensures var r := SelectRadio(f, i);
            forall k | k in ToMap(r.ledger) :: Accounted(r, k)
  {
    var r := SelectRadio(f, i);
    var name := f.radios[i].name;
    assert Mounts(r) == Mounts(f);
    forall k | k in ToMap(r.ledger)
      ensures Accounted(r, k)
    {
      if k != name {
        assert k in ToMap(f.ledger);
        AccountedElsewhere(f, r, name, k);
      } else {
        assert r.radios[i].checked && r.radios[i].name == k;
      }
    }
  }

  /** A key other than `name` stays accounted for when only group `name`'s
      radios change. */
  lemma AccountedElsewhere(f: Form, r: Form, name: string, k: string)
    requires Accounted(f, k) && k != name
    requires |r.radios| == |f.radios| && Mounts(r) == Mounts(f)
    requires forall j | 0 <= j < |f.radios| && f.radios[j].name != name :: r.radios[j] == f.radios[j]
    ensures Accounted(r, k)
  {
    if exists j | 0 <= j < |f.radios| :: f.radios[j].checked && f.radios[j].name == k {
      var j :| 0 <= j < |f.radios| && f.radios[j].checked && f.radios[j].name == k;
      assert r.radios[j] == f.radios[j];
    }
  }

  lemma SelectRadioNote(f: Form, i: nat)
    requires i < |f.radios| && NoteAgrees(f)
    ensures NoteAgrees(SelectRadio(f, i))
  {
    var r := SelectRadio(f, i);
    if f.radios[i].name != DisplayGroup {
      WantsNoteLocal(f.radios, r.radios);
    }
  }

  /** The radio `change` handler keeps the form consistent. */
  lemma SelectRadioConsistent(f: Form, i: nat)
    requires i < |f.radios| && Markup(f) && Consistent(f)
    ensures SameMarkup(f, SelectRadio(f, i)) && Consistent(SelectRadio(f, i))
  {
    var r := SelectRadio(f, i);
    assert Mounts(r) == Mounts(f);
    SelectRadioExclusive(f, i);
    SelectRadioMirrorsRadios(f, i);
    SelectRadioMirrorsMounts(f, i);
    SelectRadioAccounts(f, i);
    SelectRadioNote(f, i);
  }

  /** Showing or hiding radios touches none of the bookkeeping. */
  lemma ShownOnlyConsistent(f: Form, g: Form)
    requires Consistent(f)
    requires |g.radios| == |f.radios|
    requires forall j | 0 <= j < |f.radios| :: g.radios[j] == f.radios[j].(shown := g.radios[j].shown)
    requires g.keyhole == f.keyhole && g.note == f.note && g.ledger == f.ledger
    ensures SameMarkup(f, g) && Consistent(g)
  {
    assert Mounts(g) == Mounts(f);
    forall j | 0 <= j < |f.radios| ensures RadioMirrored(ToMap(g.ledger), g.radios[j]) {
      assert RadioMirrored(ToMap(f.ledger), f.radios[j]);
    }
    forall k | k in ToMap(g.ledger) ensures Accounted(g, k) {
      assert Accounted(f, k);
      if exists j | 0 <= j < |f.radios| :: f.radios[j].checked && f.radios[j].name == k {
        var j :| 0 <= j < |f.radios| && f.radios[j].checked && f.radios[j].name == k;
        assert g.radios[j].checked;
      }
    }
    WantsNoteValues(f.radios, g.radios);
  }

  /** `WantsNote` reads only which radios are checked. */
  lemma WantsNoteValues(rs: seq<Radio>, ss: seq<Radio>)
    requires |rs| == |ss|
    requires forall j | 0 <= j < |rs| :: ss[j] == rs[j].(shown := ss[j].shown)
    ensures WantsNote(rs) == WantsNote(ss)
  {
    FirstAgrees(rs, ss, CheckedIn(DisplayGroup));
  }

  /** With at most one radio per group checked, the note is wanted exactly
      when some checked display-preference radio has a value whose
      lower-cased form contains "custom". */
  lemma WantsNoteIffCustomChecked(rs: seq<Radio>)
    requires AtMostOneChecked(rs)
    ensures WantsNote(rs) <==>
      exists j | 0 <= j < |rs| :: rs[j].name == DisplayGroup && rs[j].checked && Includes(Lower(rs[j].value), "custom")
  {
    var c := First(rs, CheckedIn(DisplayGroup));
    if exists j | 0 <= j < |rs| :: rs[j].name == DisplayGroup && rs[j].checked && Includes(Lower(rs[j].value), "custom") {
      var j :| 0 <= j < |rs| && rs[j].name == DisplayGroup && rs[j].checked && Includes(Lower(rs[j].value), "custom");
      assert Hits(CheckedIn(DisplayGroup), rs[j]);
      assert c.Some? && rs[c.value].checked && rs[c.value].name == rs[j].name;
    }
  }

  lemma NoteVisibilityConsistent(f: Form)
    requires Consistent(f)
    ensures SameMarkup(f, NoteVisibility(f)) && Consistent(NoteVisibility(f))
  {
    var g := NoteVisibility(f);
    assert g.radios == f.radios && g.ledger == f.ledger && g.keyhole == f.keyhole;
    assert Mounts(g) == Mounts(f);
  }

  lemma RepairConsistent(g: Form, group: string)
    requires Markup(g) && Consistent(g)
    ensures SameMarkup(g, Repair(g, group)) && Consistent(Repair(g, group))
  {
    if NeedsRepair(g.radios, group) {
      SelectRadioConsistent(g, First(g.radios, ShownIn(group)).value);
    } else {
      assert Mounts(Repair(g, group)) == Mounts(g);
    }
  }

  lemma SameMarkupTrans(f: Form, g: Form, h: Form)
    requires SameMarkup(f, g) && SameMarkup(g, h)
    ensures SameMarkup(f, h)
  {
  }

  lemma FilterConsistent(f: Form, t: Option<string>)
    requires Markup(f) && Consistent(f)
    ensures SameMarkup(f, FilterDisplayOptions(f, t)) && Consistent(FilterDisplayOptions(f, t))
  {
    var g := f.(radios := Reveal(f.radios, DisplayGroup, ByDataType(t)));
    ShownOnlyConsistent(f, g);
    MarkupKept(f, g);
    var h := Repair(g, DisplayGroup);
    RepairConsistent(g, DisplayGroup);
    SameMarkupTrans(f, g, h);
    if NeedsRepair(g.radios, DisplayGroup) {
      NoteVisibilityConsistent(h);
      SameMarkupTrans(f, h, NoteVisibility(h));
    }
  }

  lemma ServiceConsistent(f: Form, t: Option<string>)
    requires Markup(f) && Consistent(f)
    ensures SameMarkup(f, UpdateServiceTypeVisibility(f, t)) && Consistent(UpdateServiceTypeVisibility(f, t))
  {
    var g := f.(radios := Reveal(f.radios, ServiceGroup, ByAllowedTypes(t)));
    ShownOnlyConsistent(f, g);
    MarkupKept(f, g);
    RepairConsistent(g, ServiceGroup);
    SameMarkupTrans(f, g, Repair(g, ServiceGroup));
  }

  /** Two ledgers that agree on every key outside the mount and slider
      families. */
  ghost predicate AgreeOnRadioKeys(m: map<string, Num>, m': map<string, Num>)
  {
    forall k | k != SliderKey && !IsMountKey(k) :: (k in m <==> k in m') && (k in m ==> m[k] == m'[k])
  }

  /** A change confined to mount and slider keys keeps the radio entries
      mirrored. */
  lemma RadiosStayMirrored(f: Form, g: Form)
    requires Markup(f) && LedgerMirrored(f)
    requires g.radios == f.radios && AgreeOnRadioKeys(ToMap(f.ledger), ToMap(g.ledger))
    ensures forall i | 0 <= i < |g.radios| :: RadioMirrored(ToMap(g.ledger), g.radios[i])
  {
    forall i | 0 <= i < |g.radios| ensures RadioMirrored(ToMap(g.ledger), g.radios[i]) {
      assert RadioMirrored(ToMap(f.ledger), f.radios[i]);
    }
  }

  lemma ToggleMirrorsMounts(f: Form, t: Option<string>)
    requires LedgerMirrored(f) && f.keyhole.Some? && t != Some(Records)
    ensures var r := ToggleKeyholeMounts(f, t);
            forall j | 0 <= j < |Mounts(r)| :: MountMirrored(ToMap(r.ledger), Mounts(r)[j])
  {
    var r := ToggleKeyholeMounts(f, t);
    var ms := f.keyhole.value.mounts;
    assert Mounts(f) == ms;
    forall j | 0 <= j < |ms| ensures MountMirrored(ToMap(r.ledger), Mounts(r)[j]) {
      assert MountMirrored(ToMap(f.ledger), ms[j]);
    }
  }

  lemma ToggleAccounts(f: Form, t: Option<string>)
    requires LedgerMirrored(f) && f.keyhole.Some? && t != Some(Records)
    ensures var r := ToggleKeyholeMounts(f, t);
            forall k | k in ToMap(r.ledger) :: Accounted(r, k)
  {
    var r := ToggleKeyholeMounts(f, t);
    var ms := f.keyhole.value.mounts;
    assert Mounts(f) == ms;
    forall k | k in ToMap(r.ledger) ensures Accounted(r, k) {
      assert k in ToMap(f.ledger) && k !in CheckedMountKeys(ms);
      assert Accounted(f, k);
      assert k == SliderKey || exists i | 0 <= i < |f.radios| :: f.radios[i].checked && f.radios[i].name == k;
    }
  }

  lemma ToggleConsistent(f: Form, t: Option<string>)
    requires Markup(f) && Consistent(f)
    ensures SameMarkup(f, ToggleKeyholeMounts(f, t)) && Consistent(ToggleKeyholeMounts(f, t))
  {
    var r := ToggleKeyholeMounts(f, t);
    if f.keyhole.Some? && t != Some(Records) {
      var ms := f.keyhole.value.mounts;
      assert Mounts(f) == ms && Mounts(r) == UncheckAll(ms);
      forall k | k != SliderKey && !IsMountKey(k) ensures k !in CheckedMountKeys(ms) {
        forall j | 0 <= j < |ms| ensures MountKey(ms[j].value) != k {
          MountKeyIsMountKey(ms[j].value);
        }
      }
      RadiosStayMirrored(f, r);
      ToggleMirrorsMounts(f, t);
      ToggleAccounts(f, t);
    } else {
      assert Mounts(r) == Mounts(f);
    }
  }

  /** Leaving `records` removes every `keyhole-mount-*` entry from a
      consistent ledger, not only those of the mounts the handler
      unchecks. */
  lemma ToggleClearsMountKeys(f: Form, t: Option<string>)
    requires Markup(f) && Consistent(f) && f.keyhole.Some? && t != Some(Records)
    ensures forall k | k in ToMap(ToggleKeyholeMounts(f, t).ledger) :: !IsMountKey(k)
  {
    var r := ToggleKeyholeMounts(f, t);
    var ms := f.keyhole.value.mounts;
    assert Mounts(f) == ms;
    SliderKeyApart();
    forall k | k in ToMap(r.ledger) ensures !IsMountKey(k) {
      assert k in ToMap(f.ledger) && k !in CheckedMountKeys(ms);
      assert Accounted(f, k);
      assert k == SliderKey || exists i | 0 <= i < |f.radios| :: f.radios[i].checked && f.radios[i].name == k;
    }
  }

  lemma MountClickMirrorsMounts(f: Form, j: nat)
    requires f.keyhole.Some? && j < |f.keyhole.value.mounts|
    requires Markup(f) && LedgerMirrored(f)
    ensures var r := MountClick(f, j);
            forall i | 0 <= i < |Mounts(r)| :: MountMirrored(ToMap(r.ledger), Mounts(r)[i])
  {
    var r := MountClick(f, j);
    var ms := f.keyhole.value.mounts;
    var key := MountKey(ms[j].value);
    assert Mounts(f) == ms;
    forall i | 0 <= i < |ms| ensures MountMirrored(ToMap(r.ledger), Mounts(r)[i]) {
      assert MountMirrored(ToMap(f.ledger), ms[i]);
      if i != j {
        assert MountKey(ms[i].value) != key by {
          assert ms[i].value != ms[j].value;
          assert MountKey(ms[i].value)[|MountKeyPrefix|..] == ms[i].value;
          assert key[|MountKeyPrefix|..] == ms[j].value;
        }
      }
    }
  }

  lemma MountClickAccounts(f: Form, j: nat)
    requires f.keyhole.Some? && j < |f.keyhole.value.mounts|
    requires LedgerMirrored(f)
    ensures var r := MountClick(f, j);
            forall k | k in ToMap(r.ledger) :: Accounted(r, k)
  {
    var r := MountClick(f, j);
    var ms := f.keyhole.value.mounts;
    var key := MountKey(ms[j].value);
    assert Mounts(f) == ms;
    assert Mounts(r) == ms[j := ms[j].(checked := !ms[j].checked)];
    forall k | k in ToMap(r.ledger) ensures Accounted(r, k) {
      if k != key {
        assert k in ToMap(f.ledger);
        AccountedOtherMount(f, r, j, k);
      } else {
        assert Mounts(r)[j].checked && MountKey(Mounts(r)[j].value) == k;
      }
    }
  }

  /** A key other than mount `j`'s stays accounted for when only that
      mount's checked state changes. */
  lemma AccountedOtherMount(f: Form, r: Form, j: nat, k: string)
    requires j < |Mounts(f)| && Accounted(f, k) && k != MountKey(Mounts(f)[j].value)
    requires r.radios == f.radios
    requires Mounts(r) == Mounts(f)[j := Mounts(f)[j].(checked := !Mounts(f)[j].checked)]
    ensures Accounted(r, k)
  {
    var ms := Mounts(f);
    if exists i | 0 <= i < |ms| :: ms[i].checked && MountKey(ms[i].value) == k {
      var i :| 0 <= i < |ms| && ms[i].checked && MountKey(ms[i].value) == k;
      assert Mounts(r)[i] == ms[i];
    }
  }

  lemma MountClickRadioKeys(f: Form, j: nat)
    requires f.keyhole.Some? && j < |f.keyhole.value.mounts|
    ensures AgreeOnRadioKeys(ToMap(f.ledger), ToMap(MountClick(f, j).ledger))
  {
    MountKeyIsMountKey(f.keyhole.value.mounts[j].value);
  }

  lemma MountClickSlider(f: Form, j: nat)
    requires f.keyhole.Some? && j < |f.keyhole.value.mounts|
    requires SliderMirrored(ToMap(f.ledger))
    ensures SliderMirrored(ToMap(MountClick(f, j).ledger))
  {
    SliderKeyApart();
    assert SliderKey != MountKey(f.keyhole.value.mounts[j].value);
  }

  lemma MountClickMirrored(f: Form, j: nat)
    requires f.keyhole.Some? && j < |f.keyhole.value.mounts|
    requires Markup(f) && LedgerMirrored(f)
    ensures LedgerMirrored(MountClick(f, j))
  {
    var r := MountClick(f, j);
    MountClickRadioKeys(f, j);
    RadiosStayMirrored(f, r);
    MountClickMirrorsMounts(f, j);
    MountClickAccounts(f, j);
    MountClickSlider(f, j);
  }

  lemma MountClickConsistent(f: Form, j: nat)
    requires f.keyhole.Some? && j < |f.keyhole.value.mounts|
    requires Markup(f) && Consistent(f)
    ensures SameMarkup(f, MountClick(f, j)) && Consistent(MountClick(f, j))
  {
    var r := MountClick(f, j);
    MountClickMirrored(f, j);
    assert SameMarkup(f, r) by {
      assert Mounts(f) == f.keyhole.value.mounts && Mounts(r) == r.keyhole.value.mounts;
    }
  }

  lemma SliderInputKeepsMounts(f: Form, text: string)
    requires LedgerMirrored(f)
    ensures var r := SliderInput(f, text);
            forall i | 0 <= i < |Mounts(r)| :: MountMirrored(ToMap(r.ledger), Mounts(r)[i])
  {
    var r := SliderInput(f, text);
    var m, m' := ToMap(f.ledger), ToMap(r.ledger);
    assert Mounts(r) == Mounts(f);
    forall i | 0 <= i < |Mounts(f)| ensures MountMirrored(m', Mounts(r)[i]) {
      assert MountKey(Mounts(f)[i].value) != SliderKey by {
        assert |MountKey(Mounts(f)[i].value)| > |SliderKey|;
      }
      assert MountMirrored(m, Mounts(f)[i]);
    }
  }

  lemma SliderInputAccounts(f: Form, text: string)
    requires LedgerMirrored(f)
    ensures var r := SliderInput(f, text);
            forall k | k in ToMap(r.ledger) :: Accounted(r, k)
  {
    var r := SliderInput(f, text);
    var m, m' := ToMap(f.ledger), ToMap(r.ledger);
    assert r.radios == f.radios && Mounts(r) == Mounts(f);
    forall k | k in m' && k != SliderKey ensures Accounted(r, k) {
      assert Accounted(f, k);
    }
  }

  lemma SliderInputConsistent(f: Form, text: string)
    requires Markup(f) && Consistent(f)
    ensures SameMarkup(f, SliderInput(f, text)) && Consistent(SliderInput(f, text))
  {
    var r := SliderInput(f, text);
    assert r.radios == f.radios && r.keyhole == f.keyhole && r.note == f.note;
    assert Mounts(r) == Mounts(f);
    RadiosStayMirrored(f, r);
    SliderInputKeepsMounts(f, text);
    SliderInputAccounts(f, text);
  }

  lemma ApplyMediaTypeConsistent(f: Form, t: Option<string>)
    requires Markup(f) && Consistent(f)
    ensures SameMarkup(f, ApplyMediaType(f, t)) && Consistent(ApplyMediaType(f, t))
  {
    var a := FilterDisplayOptions(f, t);
    FilterConsistent(f, t);
    MarkupKept(f, a);
    var b := ToggleKeyholeMounts(a, t);
    ToggleConsistent(a, t);
    MarkupKept(a, b);
    SameMarkupTrans(f, a, b);
    ServiceConsistent(b, t);
    SameMarkupTrans(f, b, UpdateServiceTypeVisibility(b, t));
  }

  lemma MediaTypeIrrelevant(f: Form, t: Option<string>)
    requires Markup(f) && Consistent(f)
    ensures SameMarkup(f, f.(mediaType := t)) && Markup(f.(mediaType := t)) && Consistent(f.(mediaType := t))
  {
    assert Mounts(f.(mediaType := t)) == Mounts(f);
  }

  lemma RadioChangeConsistent(f: Form, i: nat)
    requires i < |f.radios| && Markup(f) && Consistent(f)
    ensures SameMarkup(f, RadioChange(f, i)) && Consistent(RadioChange(f, i))
  {
    var g := SelectRadio(f, i);
    SelectRadioConsistent(f, i);
    MarkupKept(f, g);
    if f.radios[i].name == MediaGroup {
      var t := f.radios[i].dataType;
      var h := g.(mediaType := t);
      MediaTypeIrrelevant(g, t);
      SameMarkupTrans(f, g, h);
      ApplyMediaTypeConsistent(h, t);
      SameMarkupTrans(f, h, ApplyMediaType(h, t));
    }
  }

  /** Every handled radio click keeps the form consistent. */
  lemma ClickRadioConsistent(f: Form, i: nat)
    requires i < |f.radios| && Markup(f) && Consistent(f)
    ensures SameMarkup(f, ClickRadio(f, i)) && Consistent(ClickRadio(f, i))
  {
    ClickIsRadioChange(f, i);
    RadioChangeConsistent(f, i);
  }

  /** After a click on radio `i` it is the only checked radio of its group,
      and a click on a media radio leaves every section in agreement with
      that radio's `data-type`. */
  lemma ClickRadioSelects(f: Form, i: nat)
    requires i < |f.radios|
    ensures var r := ClickRadio(f, i);
            && |r.radios| == |f.radios| && r.radios[i].checked
            && (forall j | 0 <= j < |f.radios| && j != i && f.radios[j].name == f.radios[i].name :: !r.radios[j].checked)
            && (f.radios[i].name == MediaGroup ==> r.mediaType == f.radios[i].dataType && MediaSettled(r, f.radios[i].dataType))
  {
    ClickIsRadioChange(f, i);
    var g := SelectRadio(f, i);
    if f.radios[i].name == MediaGroup {
      var t := f.radios[i].dataType;
      var h := g.(mediaType := t);
      ApplyMediaTypeSettles(h, t);
      ApplyMediaTypeKeepsMedia(h, t);
    }
  }
}
