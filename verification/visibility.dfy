/** What a media-type change does to the rest of the form: display options
    are filtered by their `data-type`, service options by their allowed-type
    list, and the keyhole-mount and record-size sections are shown only for
    records. A group whose checked radio is hidden or missing while some of
    its options are visible is repaired by checking the first visible one
    (assets/product-form-price-updater.js:352-472). */
module Visibility {
  import opened Wrappers
  import opened Text
  import opened JsNumber
  import opened PriceText
  import opened OptionLedger
  import opened ProductForm

  /** The rule that decides whether an option container is displayed for
      the selected media type. */
  datatype Rule = ByDataType(selected: Option<string>) | ByAllowedTypes(selected: Option<string>)

  /** `(option.dataset.allowedTypes || "").split(",")`. */
  function AllowedTypeList(attr: Option<string>): seq<string>
  {
    Split(attr.GetOr(""), ',')
  }

  /** The display test of `filterDisplayOptions` (:442-443) and of
      `updateServiceTypeVisibility` (:402-405), as written, including the
      `!allowedTypes.length` alternative. A missing `data-type` on the media
      radio or on an option is `None`, and `null === null` holds. */
  predicate Shows(rule: Rule, r: Radio)
  {
    match rule
    case ByDataType(t) => r.dataType == t
    case ByAllowedTypes(t) =>
      var types := AllowedTypeList(r.allowedTypes);
      |types| == 0 || (t.Some? && t.value in types)
  }

  /** The `!allowedTypes.length` alternative never fires: splitting always
      yields at least one piece, so a service option is shown exactly when
      its list names the selected type. */
  lemma AllowedTypesNeverEmpty(t: Option<string>, r: Radio)
    ensures Shows(ByAllowedTypes(t), r) <==> t.Some? && t.value in AllowedTypeList(r.allowedTypes)
  {
  }

  /** In particular an option without `data-allowed-types` reads as the list
      `[""]` and is hidden for every media type except the empty one. */
  lemma NoAllowedTypesHidden(t: Option<string>, r: Radio)
    requires r.allowedTypes.None? || r.allowedTypes == Some("")
    ensures Shows(ByAllowedTypes(t), r) <==> t == Some("")
  {
    assert AllowedTypeList(r.allowedTypes) == [""];
  }

  /** The first pass: every option of `group` is shown or hidden by `rule`;
      radios of other groups are untouched. */
  function Reveal(rs: seq<Radio>, group: string, rule: Rule): (r: seq<Radio>)
    ensures |r| == |rs|
    ensures forall j | 0 <= j < |rs| ::
      r[j] == if rs[j].name == group then rs[j].(shown := Shows(rule, rs[j])) else rs[j]
  {
    seq(|rs|, j requires 0 <= j < |rs| =>
      if rs[j].name == group then rs[j].(shown := Shows(rule, rs[j])) else rs[j])
  }

  /** The first pass changes only `shown` flags of the group's radios and
      reads no `shown` flag, so running it twice is running it once, and
      the passes over two different groups can run in either order. */
  lemma RevealLaws(rs: seq<Radio>, group: string, rule: Rule, other: string, rule': Rule)
    requires other != group
    ensures forall j | 0 <= j < |rs| :: Reveal(rs, group, rule)[j].(shown := rs[j].shown) == rs[j]
    ensures Reveal(Reveal(rs, group, rule), group, rule) == Reveal(rs, group, rule)
    ensures Reveal(Reveal(rs, group, rule), other, rule') == Reveal(Reveal(rs, other, rule'), group, rule)
  {
  }

  /** The second pass's test: some option of the group is visible, and no
      radio of it is checked or the checked one is hidden. */
  predicate NeedsRepair(rs: seq<Radio>, group: string)
  {
    match First(rs, ShownIn(group))
    case None => false
    case Some(_) =>
      match First(rs, CheckedIn(group))
      case None => true
      case Some(c) => !rs[c].shown
  }

  /** A group whose visibility agrees with `rule` and which needs no repair. */
  predicate Settled(rs: seq<Radio>, group: string, rule: Rule)
  {
    && (forall j | 0 <= j < |rs| && rs[j].name == group :: rs[j].shown == Shows(rule, rs[j]))
    && !NeedsRepair(rs, group)
  }

  /** Whether a group is settled depends on that group's radios only. */
  lemma SettledLocal(rs: seq<Radio>, ss: seq<Radio>, group: string, rule: Rule)
    requires |rs| == |ss|
    requires forall j | 0 <= j < |rs| && (rs[j].name == group || ss[j].name == group) :: rs[j] == ss[j]
    ensures Settled(rs, group, rule) <==> Settled(ss, group, rule)
  {
    FirstAgrees(rs, ss, ShownIn(group));
    FirstAgrees(rs, ss, CheckedIn(group));
  }

  /** The second pass of both visibility updates: when the group needs
      repair, check its first visible radio and handle its `change`. */
  function Repair(g: Form, group: string): (r: Form)
    ensures NeedsRepair(g.radios, group) ==> r == SelectRadio(g, First(g.radios, ShownIn(group)).value)
    ensures !NeedsRepair(g.radios, group) ==> r == g
    ensures |r.radios| == |g.radios|
    ensures forall j | 0 <= j < |g.radios| :: r.radios[j] == g.radios[j].(checked := r.radios[j].checked)
    ensures !NeedsRepair(r.radios, group)
  {
    if NeedsRepair(g.radios, group) then
      var v := First(g.radios, ShownIn(group)).value;
      var h := SelectRadio(g, v);
      FirstAgrees(g.radios, h.radios, ShownIn(group));
      h
    else g
  }

  /** `filterDisplayOptions(t)` (:437-472): each display option is visible iff
      its `data-type` equals `t` exactly; then, if some is visible and the
      checked one is hidden or absent, the first visible one is checked, its
      `change` is handled, and the custom note is re-evaluated. */
  function FilterDisplayOptions(f: Form, t: Option<string>): (r: Form)
    ensures |r.radios| == |f.radios|
    ensures forall j | 0 <= j < |f.radios| && f.radios[j].name == DisplayGroup ::
      r.radios[j].shown == (f.radios[j].dataType == t)
    ensures forall j | 0 <= j < |f.radios| && f.radios[j].name != DisplayGroup :: r.radios[j] == f.radios[j]
    ensures forall j | 0 <= j < |f.radios| ::
      r.radios[j] == f.radios[j].(shown := r.radios[j].shown, checked := r.radios[j].checked)
    ensures Settled(r.radios, DisplayGroup, ByDataType(t))
    ensures r.keyhole == f.keyhole && r.base == f.base && r.mediaType == f.mediaType
  {
    RevealRepair(f, DisplayGroup, ByDataType(t));
    var g := f.(radios := Reveal(f.radios, DisplayGroup, ByDataType(t)));
    var h := Repair(g, DisplayGroup);
    if NeedsRepair(g.radios, DisplayGroup) then NoteVisibility(h) else h
  }

  /** `updateServiceTypeVisibility(t)` (:391-435): each service option is
      visible iff its comma-split allowed-type list contains `t`; the same
      repair then checks the first visible one and handles its `change`. */
  function UpdateServiceTypeVisibility(f: Form, t: Option<string>): (r: Form)
    ensures |r.radios| == |f.radios|
    ensures forall j | 0 <= j < |f.radios| && f.radios[j].name == ServiceGroup ::
      r.radios[j].shown == (t.Some? && t.value in AllowedTypeList(f.radios[j].allowedTypes))
    ensures forall j | 0 <= j < |f.radios| && f.radios[j].name != ServiceGroup :: r.radios[j] == f.radios[j]
    ensures forall j | 0 <= j < |f.radios| ::
      r.radios[j] == f.radios[j].(shown := r.radios[j].shown, checked := r.radios[j].checked)
    ensures Settled(r.radios, ServiceGroup, ByAllowedTypes(t))
    ensures r.keyhole == f.keyhole && r.note == f.note && r.base == f.base && r.mediaType == f.mediaType
  {
    RevealRepair(f, ServiceGroup, ByAllowedTypes(t));
    Repair(f.(radios := Reveal(f.radios, ServiceGroup, ByAllowedTypes(t))), ServiceGroup)
  }

  /** The repair touches only the radios of `group`, and the note only when
      the group is the display group. */
  lemma RepairKeeps(g: Form, group: string)
    ensures var r := Repair(g, group);
            && (forall j | 0 <= j < |g.radios| && g.radios[j].name != group :: r.radios[j] == g.radios[j])
            && r.keyhole == g.keyhole && r.base == g.base && r.mediaType == g.mediaType
            && (group != DisplayGroup ==> r.note == g.note)
  {
    if NeedsRepair(g.radios, group) {
      var v := First(g.radios, ShownIn(group)).value;
      assert Repair(g, group) == SelectRadio(g, v);
      assert g.radios[v].name == group;
    }
  }

  /** Both passes over `group`: visibility follows `rule`, other groups and
      the rest of the form are untouched, and the group ends settled. */
  lemma RevealRepair(f: Form, group: string, rule: Rule)
    ensures var r := Repair(f.(radios := Reveal(f.radios, group, rule)), group);
            && |r.radios| == |f.radios|
            && (forall j | 0 <= j < |f.radios| ::
                  r.radios[j] == f.radios[j].(shown := r.radios[j].shown, checked := r.radios[j].checked))
            && (forall j | 0 <= j < |f.radios| && f.radios[j].name == group :: r.radios[j].shown == Shows(rule, f.radios[j]))
            && (forall j | 0 <= j < |f.radios| && f.radios[j].name != group :: r.radios[j] == f.radios[j])
            && Settled(r.radios, group, rule)
            && r.keyhole == f.keyhole && r.base == f.base && r.mediaType == f.mediaType
            && (group != DisplayGroup ==> r.note == f.note)
  {
    var g := f.(radios := Reveal(f.radios, group, rule));
    RepairKeeps(g, group);
    RevealThenRecheck(f, g, Repair(g, group), group, rule);
  }

  /** The facts of `RevealRepair` for any `r` that differs from the revealed
      form `g` only in which radios of `group` are checked, and that needs no
      repair. */
  lemma RevealThenRecheck(f: Form, g: Form, r: Form, group: string, rule: Rule)
    requires g == f.(radios := Reveal(f.radios, group, rule))
    requires |r.radios| == |g.radios|
    requires forall j | 0 <= j < |g.radios| :: r.radios[j] == g.radios[j].(checked := r.radios[j].checked)
    requires forall j | 0 <= j < |g.radios| && g.radios[j].name != group :: r.radios[j] == g.radios[j]
    requires !NeedsRepair(r.radios, group)
    ensures |r.radios| == |f.radios|
    ensures forall j | 0 <= j < |f.radios| ::
      r.radios[j] == f.radios[j].(shown := r.radios[j].shown, checked := r.radios[j].checked)
    ensures forall j | 0 <= j < |f.radios| && f.radios[j].name == group :: r.radios[j].shown == Shows(rule, f.radios[j])
    ensures forall j | 0 <= j < |f.radios| && f.radios[j].name != group :: r.radios[j] == f.radios[j]
    ensures Settled(r.radios, group, rule)
  {
    RechecksStaySettled(g.radios, r.radios, group, rule);
  }

  /** Changing only which radios are checked keeps the visibility rule, so
      a group that needs no repair afterwards is settled. */
  lemma RechecksStaySettled(rs: seq<Radio>, ss: seq<Radio>, group: string, rule: Rule)
    requires |ss| == |rs|
    requires forall j | 0 <= j < |rs| :: ss[j] == rs[j].(checked := ss[j].checked)
    requires forall j | 0 <= j < |rs| && rs[j].name == group :: rs[j].shown == Shows(rule, rs[j])
    requires !NeedsRepair(ss, group)
    ensures Settled(ss, group, rule)
  {
    forall j | 0 <= j < |ss| && ss[j].name == group ensures ss[j].shown == Shows(rule, ss[j]) {
      assert ss[j].shown == rs[j].shown;
    }
  }

  /** When no display option matches `t`, or the checked one does, filtering
      keeps the selection, the ledger and the note as they were. */
  lemma FilterKeepsSelection(f: Form, t: Option<string>)
    requires var c := First(f.radios, CheckedIn(DisplayGroup));
             (forall j | 0 <= j < |f.radios| && f.radios[j].name == DisplayGroup :: f.radios[j].dataType != t)
             || (c.Some? && f.radios[c.value].dataType == t)
    ensures var r := FilterDisplayOptions(f, t);
            && (forall j | 0 <= j < |f.radios| :: r.radios[j].checked == f.radios[j].checked)
            && r.ledger == f.ledger && r.note == f.note
  {
    var g := f.(radios := Reveal(f.radios, DisplayGroup, ByDataType(t)));
    assert !NeedsRepair(g.radios, DisplayGroup) by {
      FirstAgrees(f.radios, g.radios, CheckedIn(DisplayGroup));
    }
    assert FilterDisplayOptions(f, t) == g;
  }

  /** Under the conditions of `FilterRepairsSelection` the revealed group
      needs repair, so the filter is the note update after `SelectRadio` on
      the first matching option. */
  lemma FilterRepairs(f: Form, t: Option<string>)
    requires exists j | 0 <= j < |f.radios| :: f.radios[j].name == DisplayGroup && f.radios[j].dataType == t
    requires var c := First(f.radios, CheckedIn(DisplayGroup));
             c.None? || f.radios[c.value].dataType != t
    ensures var g := f.(radios := Reveal(f.radios, DisplayGroup, ByDataType(t)));
            && NeedsRepair(g.radios, DisplayGroup)
            && FilterDisplayOptions(f, t) == NoteVisibility(SelectRadio(g, First(g.radios, ShownIn(DisplayGroup)).value))
  {
    var g := f.(radios := Reveal(f.radios, DisplayGroup, ByDataType(t)));
    FirstAgrees(f.radios, g.radios, CheckedIn(DisplayGroup));
    var j :| 0 <= j < |f.radios| && f.radios[j].name == DisplayGroup && f.radios[j].dataType == t;
    assert Hits(ShownIn(DisplayGroup), g.radios[j]);
  }

  /** When some display option matches `t` but none is checked or the checked
      one does not match, the first matching option becomes the only checked
      one of the group, its price replaces the group's ledger entry, and the
      custom note follows the new selection. */
  lemma FilterRepairsSelection(f: Form, t: Option<string>)
    requires exists j | 0 <= j < |f.radios| :: f.radios[j].name == DisplayGroup && f.radios[j].dataType == t
    requires var c := First(f.radios, CheckedIn(DisplayGroup));
             c.None? || f.radios[c.value].dataType != t
    ensures var r := FilterDisplayOptions(f, t);
            var v := First(r.radios, ShownIn(DisplayGroup));
            && v.Some? && f.radios[v.value].dataType == t
            && (forall j | 0 <= j < v.value && f.radios[j].name == DisplayGroup :: f.radios[j].dataType != t)
            && (forall j | 0 <= j < |f.radios| && f.radios[j].name == DisplayGroup :: r.radios[j].checked <==> j == v.value)
            && ToMap(r.ledger) == AfterOptionChange(ToMap(f.ledger), f.radios[v.value])
            && (r.note.Some? <==> f.note.Some?)
            && (r.note.Some? ==> r.note.value.shown == WantsNote(r.radios))
  {
    var g := f.(radios := Reveal(f.radios, DisplayGroup, ByDataType(t)));
    FilterRepairs(f, t);
    var v := First(g.radios, ShownIn(DisplayGroup)).value;
    DisplaySelected(g, v);
    DisplayRepaired(f, g, FilterDisplayOptions(f, t), t, v);
  }

  /** The facts of `FilterRepairsSelection` for any `r` that `DisplaySelected`
      describes, restated against the form before the reveal. */
  lemma DisplayRepaired(f: Form, g: Form, r: Form, t: Option<string>, v: nat)
    requires g == f.(radios := Reveal(f.radios, DisplayGroup, ByDataType(t)))
    requires First(g.radios, ShownIn(DisplayGroup)) == Some(v)
    requires |r.radios| == |g.radios| && First(r.radios, ShownIn(DisplayGroup)) == Some(v)
    requires forall j | 0 <= j < |g.radios| && g.radios[j].name == DisplayGroup :: r.radios[j].checked <==> j == v
    requires ToMap(r.ledger) == AfterOptionChange(ToMap(g.ledger), g.radios[v])
    requires (r.note.Some? <==> g.note.Some?) && (r.note.Some? ==> r.note.value.shown == WantsNote(r.radios))
    ensures f.radios[v].dataType == t
    ensures forall j | 0 <= j < v && f.radios[j].name == DisplayGroup :: f.radios[j].dataType != t
    ensures forall j | 0 <= j < |f.radios| && f.radios[j].name == DisplayGroup :: r.radios[j].checked <==> j == v
    ensures ToMap(r.ledger) == AfterOptionChange(ToMap(f.ledger), f.radios[v])
    ensures (r.note.Some? <==> f.note.Some?) && (r.note.Some? ==> r.note.value.shown == WantsNote(r.radios))
  {
    assert g.radios[v] == f.radios[v].(shown := true);
    assert AfterOptionChange(ToMap(f.ledger), f.radios[v]) == AfterOptionChange(ToMap(g.ledger), g.radios[v]);
    forall j | 0 <= j < v && f.radios[j].name == DisplayGroup ensures f.radios[j].dataType != t {
      assert !Hits(ShownIn(DisplayGroup), g.radios[j]);
    }
  }

  /** Selecting the first visible display option `v`: it stays the first
      visible one, becomes the only checked one of the group, its price
      replaces the group's entry, and the note follows. */
  lemma DisplaySelected(g: Form, v: nat)
    requires v < |g.radios| && g.radios[v].name == DisplayGroup && g.radios[v].shown
    requires forall j | 0 <= j < v :: !Hits(ShownIn(DisplayGroup), g.radios[j])
    ensures var r := NoteVisibility(SelectRadio(g, v));
            && First(r.radios, ShownIn(DisplayGroup)) == Some(v)
            && (forall j | 0 <= j < |g.radios| && g.radios[j].name == DisplayGroup :: r.radios[j].checked <==> j == v)
            && ToMap(r.ledger) == AfterOptionChange(ToMap(g.ledger), g.radios[v])
            && (r.note.Some? <==> g.note.Some?)
            && (r.note.Some? ==> r.note.value.shown == WantsNote(r.radios))
  {
    var h := SelectRadio(g, v);
    FirstAgrees(g.radios, h.radios, ShownIn(DisplayGroup));
    assert First(g.radios, ShownIn(DisplayGroup)) == Some(v);
  }

  /** The service-type counterpart: when some service option is visible for
      `t` and the checked one is not, the first visible one becomes the only
      checked one and its price replaces the group's ledger entry; otherwise
      the selection and the ledger stay as they were. */
  lemma ServiceRepair(f: Form, t: Option<string>)
    ensures var r := UpdateServiceTypeVisibility(f, t);
            var c := First(f.radios, CheckedIn(ServiceGroup));
            var v := First(r.radios, ShownIn(ServiceGroup));
            if v.Some? && (c.None? || !r.radios[c.value].shown) then
              && (forall j | 0 <= j < |f.radios| && f.radios[j].name == ServiceGroup :: r.radios[j].checked <==> j == v.value)
              && ToMap(r.ledger) == AfterOptionChange(ToMap(f.ledger), f.radios[v.value])
            else
              && (forall j | 0 <= j < |f.radios| :: r.radios[j].checked == f.radios[j].checked)
              && r.ledger == f.ledger
  {
    var g := f.(radios := Reveal(f.radios, ServiceGroup, ByAllowedTypes(t)));
    FirstAgrees(f.radios, g.radios, CheckedIn(ServiceGroup));
    if NeedsRepair(g.radios, ServiceGroup) {
      var v := First(g.radios, ShownIn(ServiceGroup)).value;
      ServiceSelected(g, v);
      ServiceRepaired(f, g, UpdateServiceTypeVisibility(f, t), t, v);
    } else {
      assert UpdateServiceTypeVisibility(f, t) == g;
    }
  }

  /** Selecting the first visible service option `v`: it stays the first
      visible one, visibility is unchanged, it becomes the only checked one
      of the group and its price replaces the group's entry. */
  lemma ServiceSelected(g: Form, v: nat)
    requires v < |g.radios| && g.radios[v].name == ServiceGroup
    requires First(g.radios, ShownIn(ServiceGroup)) == Some(v)
    ensures var r := SelectRadio(g, v);
            && First(r.radios, ShownIn(ServiceGroup)) == Some(v)
            && (forall j | 0 <= j < |g.radios| :: r.radios[j].shown == g.radios[j].shown)
            && (forall j | 0 <= j < |g.radios| && g.radios[j].name == ServiceGroup :: r.radios[j].checked <==> j == v)
            && ToMap(r.ledger) == AfterOptionChange(ToMap(g.ledger), g.radios[v])
  {
    var h := SelectRadio(g, v);
    FirstAgrees(g.radios, h.radios, ShownIn(ServiceGroup));
  }

  /** The repair case of `ServiceRepair` for any `r` that `ServiceSelected`
      describes, restated against the form before the reveal. */
  lemma ServiceRepaired(f: Form, g: Form, r: Form, t: Option<string>, v: nat)
    requires g == f.(radios := Reveal(f.radios, ServiceGroup, ByAllowedTypes(t)))
    requires NeedsRepair(g.radios, ServiceGroup) && First(g.radios, ShownIn(ServiceGroup)) == Some(v)
    requires |r.radios| == |g.radios| && First(r.radios, ShownIn(ServiceGroup)) == Some(v)
    requires forall j | 0 <= j < |g.radios| :: r.radios[j].shown == g.radios[j].shown
    requires forall j | 0 <= j < |g.radios| && g.radios[j].name == ServiceGroup :: r.radios[j].checked <==> j == v
    requires ToMap(r.ledger) == AfterOptionChange(ToMap(g.ledger), g.radios[v])
    ensures var c := First(f.radios, CheckedIn(ServiceGroup));
            c.None? || (c.value < |r.radios| && !r.radios[c.value].shown)
    ensures forall j | 0 <= j < |f.radios| && f.radios[j].name == ServiceGroup :: r.radios[j].checked <==> j == v
    ensures ToMap(r.ledger) == AfterOptionChange(ToMap(f.ledger), f.radios[v])
  {
    FirstAgrees(f.radios, g.radios, CheckedIn(ServiceGroup));
    assert AfterOptionChange(ToMap(f.ledger), f.radios[v]) == AfterOptionChange(ToMap(g.ledger), g.radios[v]);
  }

  /** The ledger keys of the checked mounts. */
  function CheckedMountKeys(ms: seq<Mount>): (ks: set<string>)
    ensures forall k :: k in ks <==> exists j | 0 <= j < |ms| :: ms[j].checked && MountKey(ms[j].value) == k
  {
    if ms == [] then {}
    else
      var rest := CheckedMountKeys(ms[1..]);
      assert forall j | 1 <= j < |ms| :: ms[j] == ms[1..][j - 1];
      (if ms[0].checked then {MountKey(ms[0].value)} else {}) + rest
  }

  lemma CheckedMountKeysCons(ms: seq<Mount>)
    requires ms != []
    ensures CheckedMountKeys(ms) == (if ms[0].checked then {MountKey(ms[0].value)} else {}) + CheckedMountKeys(ms[1..])
  {
  }

  lemma MinusTwice(m: map<string, Num>, a: set<string>, b: set<string>)
    ensures m - a - b == m - (a + b)
  {
  }

  /** Deletes the entry of one mount if it is checked. */
  function DropMountEntry(l: Ledger, m: Mount): (r: Ledger)
    ensures ToMap(r) == ToMap(l) - (if m.checked then {MountKey(m.value)} else {})
    ensures !m.checked ==> r == l
  {
    if m.checked then
      DeleteView(l, MountKey(m.value));
      Delete(l, MountKey(m.value))
    else
      assert ToMap(l) - {} == ToMap(l);
      l
  }

  /** Deletes the entry of every checked mount, in document order. */
  function DropMountEntries(l: Ledger, ms: seq<Mount>): (r: Ledger)
    ensures ToMap(r) == ToMap(l) - CheckedMountKeys(ms)
    ensures CheckedMountKeys(ms) == {} ==> r == l
  {
    if ms == [] then l
    else
      var first: set<string> := if ms[0].checked then {MountKey(ms[0].value)} else {};
      var l' := DropMountEntry(l, ms[0]);
      CheckedMountKeysCons(ms);
      MinusTwice(ToMap(l), first, CheckedMountKeys(ms[1..]));
      DropMountEntries(l', ms[1..])
  }

  function UncheckAll(ms: seq<Mount>): (r: seq<Mount>)
    ensures |r| == |ms| && forall j | 0 <= j < |ms| :: r[j] == ms[j].(checked := false)
  {
    seq(|ms|, j requires 0 <= j < |ms| => ms[j].(checked := false))
  }

  /** `toggleKeyholeMounts(t)` (:352-371): a page without the section is left
      alone. For records both sections are shown and nothing else changes;
      otherwise both are hidden, every mount ends unchecked, and exactly the
      entries of the previously checked mounts leave the ledger. */
  function ToggleKeyholeMounts(f: Form, t: Option<string>): (r: Form)
    ensures f.keyhole.None? ==> r == f
    ensures r.keyhole.Some? <==> f.keyhole.Some?
    ensures r.keyhole.Some? ==>
      r.keyhole.value.shown == (t == Some(Records)) && r.keyhole.value.recordSizeShown == (t == Some(Records))
    ensures f.keyhole.Some? && t == Some(Records) ==> r.ledger == f.ledger && r.keyhole.value.mounts == f.keyhole.value.mounts
    ensures f.keyhole.Some? && t != Some(Records) ==>
      && r.keyhole.value.mounts == UncheckAll(f.keyhole.value.mounts)
      && ToMap(r.ledger) == ToMap(f.ledger) - CheckedMountKeys(f.keyhole.value.mounts)
    ensures r.radios == f.radios && r.note == f.note && r.base == f.base && r.mediaType == f.mediaType
  {
    match f.keyhole
    case None => f
    case Some(sec) =>
      if t == Some(Records) then
        f.(keyhole := Some(sec.(shown := true, recordSizeShown := true)))
      else
        f.(keyhole := Some(MountSection(UncheckAll(sec.mounts), false, false)),
           ledger := DropMountEntries(f.ledger, sec.mounts))
  }

  /** The keyhole sections agree with media type `t`. */
  predicate MountsSettled(k: Option<MountSection>, t: Option<string>)
  {
    k.Some? ==>
      && k.value.shown == (t == Some(Records))
      && k.value.recordSizeShown == (t == Some(Records))
      && (t != Some(Records) ==> forall j | 0 <= j < |k.value.mounts| :: !k.value.mounts[j].checked)
  }

  /** Everything a media-type change governs agrees with media type `t`. */
  predicate MediaSettled(f: Form, t: Option<string>)
  {
    && Settled(f.radios, DisplayGroup, ByDataType(t))
    && Settled(f.radios, ServiceGroup, ByAllowedTypes(t))
    && MountsSettled(f.keyhole, t)
  }

  /** The three calls the radio handler makes for a media-type radio
      (:110-112). */
  function ApplyMediaType(f: Form, t: Option<string>): Form
  {
    UpdateServiceTypeVisibility(ToggleKeyholeMounts(FilterDisplayOptions(f, t), t), t)
  }

  /** The radio `change` listener of `initializeEventListeners` (:88-114):
      `SelectRadio`, and for a media-type radio the new `currentMediaType`
      and the three visibility updates. */
  function RadioChange(f: Form, i: nat): Form
    requires i < |f.radios|
  {
    var g := SelectRadio(f, i);
    if f.radios[i].name == MediaGroup then
      var t := f.radios[i].dataType;
      ApplyMediaType(g.(mediaType := t), t)
    else g
  }

  /** A `change` event on radio `i` runs every listener it has, in
      registration order: the handler above, then for a media-type radio the
      listener of `initializeDisplayFiltering` (:326-330) and the one of
      `initializeServiceTypeVisibility` (:384-387). */
  function ClickRadio(f: Form, i: nat): Form
    requires i < |f.radios|
  {
    var g := RadioChange(f, i);
    if f.radios[i].name == MediaGroup then
      var t := f.radios[i].dataType;
      var afterDisplayListener := ToggleKeyholeMounts(FilterDisplayOptions(g, t), t);
      UpdateServiceTypeVisibility(afterDisplayListener, t)
    else g
  }

  /** Filtering leaves a settled display group alone. */
  lemma FilterFixesSettled(f: Form, t: Option<string>)
    requires Settled(f.radios, DisplayGroup, ByDataType(t))
    ensures FilterDisplayOptions(f, t) == f
  {
    assert Reveal(f.radios, DisplayGroup, ByDataType(t)) == f.radios;
  }

  lemma ServiceFixesSettled(f: Form, t: Option<string>)
    requires Settled(f.radios, ServiceGroup, ByAllowedTypes(t))
    ensures UpdateServiceTypeVisibility(f, t) == f
  {
    assert Reveal(f.radios, ServiceGroup, ByAllowedTypes(t)) == f.radios;
  }

  lemma ToggleFixesSettled(f: Form, t: Option<string>)
    requires MountsSettled(f.keyhole, t)
    ensures ToggleKeyholeMounts(f, t) == f
  {
    if f.keyhole.Some? && t != Some(Records) {
      var ms := f.keyhole.value.mounts;
      assert UncheckAll(ms) == ms;
      assert CheckedMountKeys(ms) == {};
    }
  }

  /** After the three updates, everything agrees with the media type. */
  lemma ApplyMediaTypeSettles(f: Form, t: Option<string>)
    ensures MediaSettled(ApplyMediaType(f, t), t)
  {
    var a := FilterDisplayOptions(f, t);
    var b := ToggleKeyholeMounts(a, t);
    var c := UpdateServiceTypeVisibility(b, t);
    SettledLocal(b.radios, c.radios, DisplayGroup, ByDataType(t));
    assert b.radios == a.radios;
  }

  /** The media step leaves the media radios and `currentMediaType` alone. */
  lemma ApplyMediaTypeKeepsMedia(f: Form, t: Option<string>)
    ensures var r := ApplyMediaType(f, t);
            && |r.radios| == |f.radios| && r.mediaType == f.mediaType
            && forall j | 0 <= j < |f.radios| && f.radios[j].name == MediaGroup :: r.radios[j] == f.radios[j]
  {
  }

  /** Applying a media type to a form already settled for it changes
      nothing. */
  lemma ApplyMediaTypeFixesSettled(f: Form, t: Option<string>)
    requires MediaSettled(f, t)
    ensures ApplyMediaType(f, t) == f
  {
    FilterFixesSettled(f, t);
    ToggleFixesSettled(f, t);
    ServiceFixesSettled(f, t);
  }

  /** Idempotence: a second application of the media-type updates is a
      no-op. */
  lemma ApplyMediaTypeIdempotent(f: Form, t: Option<string>)
    ensures ApplyMediaType(ApplyMediaType(f, t), t) == ApplyMediaType(f, t)
  {
    ApplyMediaTypeSettles(f, t);
    ApplyMediaTypeFixesSettled(ApplyMediaType(f, t), t);
  }

  /** The extra listeners registered on the media radios repeat work the
      radio handler has already done: a click has the effect of the radio
      handler alone. */
  lemma ClickIsRadioChange(f: Form, i: nat)
    requires i < |f.radios|
    ensures ClickRadio(f, i) == RadioChange(f, i)
  {
    if f.radios[i].name == MediaGroup {
      var t := f.radios[i].dataType;
      ApplyMediaTypeIdempotent(SelectRadio(f, i).(mediaType := t), t);
    }
  }
}
