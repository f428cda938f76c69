/** The state `ProductFormPriceUpdater` keeps on the page and the handlers
    that change one option at a time (assets/product-form-price-updater.js).
    DOM elements become fields: a radio's container visibility is `shown`,
    its `.option-price` text is `priceText`; a dispatched `change` event is a
    direct call of the handler it would reach. */
module ProductForm {
  import opened Wrappers
  import opened Text
  import opened JsNumber
  import opened PriceText
  import opened OptionLedger

  const MediaGroup: string := "properties[media-type]"
  const DisplayGroup: string := "properties[display-preference]"
  const ServiceGroup: string := "properties[service-type]"
  const Records: string := "records"
  const SliderKey: string := "sliderPrice"
  const MountKeyPrefix: string := "keyhole-mount-"

  /** A radio input of the form, in document order. `dataType` is the
      `data-type` of a media radio or of a display option's container;
      `allowedTypes` the `data-allowed-types` of a service option's
      container; `priceText` the text of the `.option-price` in its
      `.radio-container`; `sectionTitle` the `.form-title` text of its
      `.form-section`; `shown` whether its option container is displayed. */
  datatype Radio = Radio(
    name: string,
    value: string,
    dataType: Option<string>,
    allowedTypes: Option<string>,
    priceText: Option<string>,
    sectionTitle: Option<string>,
    shown: bool,
    checked: bool)

  /** A keyhole-mount checkbox: its value and `data-price` attribute. */
  datatype Mount = Mount(value: string, price: Option<string>, checked: bool)

  /** The keyhole-mounts section, its checkboxes, and the display state of it
      and of the record-size section. */
  datatype MountSection = MountSection(mounts: seq<Mount>, shown: bool, recordSizeShown: bool)

  /** The custom-note section: the textarea's text and whether it is shown. */
  datatype NoteSection = NoteSection(text: string, shown: bool)

  /** The page state: every radio, the keyhole-mounts section and the
      custom-note section when the page has them, the option ledger, the
      base price and `currentMediaType`. */
  datatype Form = Form(
    radios: seq<Radio>,
    keyhole: Option<MountSection>,
    note: Option<NoteSection>,
    ledger: Ledger,
    base: Num,
    mediaType: Option<string>)

  /** The ledger key of a keyhole mount. */
  function MountKey(value: string): string
  {
    MountKeyPrefix + value
  }

  /** What a `querySelector` over the radios looks for. */
  datatype Probe = CheckedIn(group: string) | ShownIn(group: string)

  predicate Hits(p: Probe, r: Radio)
  {
    match p
    case CheckedIn(g) => r.name == g && r.checked
    case ShownIn(g) => r.name == g && r.shown
  }

  /** The first radio in document order that `p` finds, as `querySelector`
      returns it. */
  function First(rs: seq<Radio>, p: Probe): (r: Option<nat>)
    ensures r.Some? ==> r.value < |rs| && Hits(p, rs[r.value])
    ensures forall j | 0 <= j < |rs| && (r.None? || j < r.value) :: !Hits(p, rs[j])
  {
    if rs == [] then None
    else
      match First(rs[..|rs| - 1], p)
      case Some(j) => Some(j)
      case None => if Hits(p, rs[|rs| - 1]) then Some(|rs| - 1) else None
  }

  /** `First` depends only on which radios the probe hits. */
  lemma FirstAgrees(rs: seq<Radio>, ss: seq<Radio>, p: Probe)
    requires |rs| == |ss|
    requires forall j | 0 <= j < |rs| :: Hits(p, rs[j]) == Hits(p, ss[j])
    ensures First(rs, p) == First(ss, p)
  {
  }

  /** Checking radio `i`: it becomes checked and every other radio with the
      same name unchecked (the handler's loop, and the browser's radio-group
      rule for a non-empty name); nothing else changes. Radios without a
      name are treated as one group here, which neither the browser nor the
      `[name=""]` selector does. */
  function Check(rs: seq<Radio>, i: nat): (r: seq<Radio>)
    requires i < |rs|
    ensures |r| == |rs|
    ensures forall j | 0 <= j < |rs| ::
      r[j] == if j == i then rs[j].(checked := true)
              else if rs[j].name == rs[i].name then rs[j].(checked := false)
              else rs[j]
  {
    seq(|rs|, j requires 0 <= j < |rs| =>
      if j == i then rs[j].(checked := true)
      else if rs[j].name == rs[i].name then rs[j].(checked := false)
      else rs[j])
  }

  /** What checking a radio means for its group: only `checked` flags
      change, radio `i` is the group's only checked radio and so the one
      `querySelector(...:checked)` finds, and other groups are untouched. */
  lemma CheckSelects(rs: seq<Radio>, i: nat)
    requires i < |rs|
    ensures var r := Check(rs, i);
            && (forall j | 0 <= j < |rs| :: r[j].(checked := rs[j].checked) == rs[j])
            && (forall j | 0 <= j < |rs| && rs[j].name == rs[i].name :: r[j].checked <==> j == i)
            && (forall j | 0 <= j < |rs| && rs[j].name != rs[i].name :: r[j] == rs[j])
            && First(r, CheckedIn(rs[i].name)) == Some(i)
  {
    var r := Check(rs, i);
    match First(r, CheckedIn(rs[i].name))
    case None =>
      assert Hits(CheckedIn(rs[i].name), r[i]);
    case Some(k) =>
      assert Hits(CheckedIn(rs[i].name), r[k]);
      if k > i {
        assert Hits(CheckedIn(rs[i].name), r[i]);
      }
  }

  /** Of two radios checked one after the other in the same group, the
      last one wins. */
  lemma CheckLastWins(rs: seq<Radio>, i: nat, k: nat)
    requires i < |rs| && k < |rs| && rs[i].name == rs[k].name
    ensures Check(Check(rs, i), k) == Check(rs, k)
  {
  }

  /** The custom-note rule: some display-preference radio is checked and the
      first one's lower-cased value contains "custom". */
  predicate WantsNote(rs: seq<Radio>)
  {
    match First(rs, CheckedIn(DisplayGroup))
    case None => false
    case Some(j) => Includes(Lower(rs[j].value), "custom")
  }

  /** `handleCustomNoteVisibility`: shows the custom-note section exactly when
      `WantsNote` holds; a page without the section is left alone. */
  function NoteVisibility(f: Form): (r: Form)
    ensures r.note.Some? <==> f.note.Some?
    ensures r.note.Some? ==> r.note.value == f.note.value.(shown := WantsNote(f.radios))
    ensures r.(note := f.note) == f
  {
    match f.note
    case None => f
    case Some(n) => f.(note := Some(n.(shown := WantsNote(f.radios))))
  }

  /** Afterwards the note section agrees with the radios, its text is kept,
      and a second evaluation changes nothing. */
  lemma NoteVisibilityAgrees(f: Form)
    ensures var r := NoteVisibility(f);
            && r.radios == f.radios
            && (r.note.Some? ==> r.note.value.shown == WantsNote(r.radios) && r.note.value.text == f.note.value.text)
            && NoteVisibility(r) == r
  {
  }

  /** The ledger, as a map, after `handleOptionChange` for radio `r`
      (:213-226): the group's entry is the extracted price of the option's
      price text, or absent when the option has none. */
  function AfterOptionChange(m: map<string, Num>, r: Radio): (m': map<string, Num>)
    ensures r.priceText.Some? ==> r.name in m' && m'[r.name] == Val(ExtractPrice(r.priceText.value))
    ensures r.priceText.None? ==> r.name !in m'
    ensures forall k | k != r.name :: (k in m' <==> k in m) && (k in m ==> m'[k] == m[k])
  {
    match r.priceText
    case Some(t) => m[r.name := Val(ExtractPrice(t))]
    case None => m - {r.name}
  }

  /** A later change in the same group overrides an earlier one. */
  lemma AfterOptionChangeLastWins(m: map<string, Num>, a: Radio, b: Radio)
    requires a.name == b.name
    ensures AfterOptionChange(AfterOptionChange(m, a), b) == AfterOptionChange(m, b)
  {
  }

  /** Changes in different groups can land in either order. */
  lemma AfterOptionChangeCommutes(m: map<string, Num>, a: Radio, b: Radio)
    requires a.name != b.name
    ensures AfterOptionChange(AfterOptionChange(m, a), b) == AfterOptionChange(AfterOptionChange(m, b), a)
  {
  }

  /** `handleOptionChange` (:213-226) on the ledger itself. */
  function OptionChange(l: Ledger, r: Radio): (l': Ledger)
    ensures ToMap(l') == AfterOptionChange(ToMap(l), r)
  {
    match r.priceText
    case Some(t) =>
      SetView(l, r.name, Val(ExtractPrice(t)));
      Set(l, r.name, Val(ExtractPrice(t)))
    case None =>
      DeleteView(l, r.name);
      Delete(l, r.name)
  }

  /** The common part of the radio `change` listener for radio `i`
      (:88-103): make it the only checked radio of its group, then
      `handleOptionChange` — set the group's ledger entry to the extracted
      price, or delete it when the option has no price text — and, for a
      display-preference radio, re-evaluate the custom note. A `change`
      dispatched by the visibility repair reaches exactly this, since the
      repaired radios are never media-type radios. */
  function SelectRadio(f: Form, i: nat): (r: Form)
    requires i < |f.radios|
    ensures |r.radios| == |f.radios|
    ensures r.radios[i].checked
    ensures forall j | 0 <= j < |f.radios| && j != i && f.radios[j].name == f.radios[i].name :: !r.radios[j].checked
    ensures forall j | 0 <= j < |f.radios| && f.radios[j].name != f.radios[i].name :: r.radios[j] == f.radios[j]
    ensures forall j | 0 <= j < |f.radios| :: r.radios[j] == f.radios[j].(checked := r.radios[j].checked)
    ensures First(r.radios, CheckedIn(f.radios[i].name)) == Some(i)
    ensures ToMap(r.ledger) == AfterOptionChange(ToMap(f.ledger), f.radios[i])
    ensures r.keyhole == f.keyhole && r.base == f.base && r.mediaType == f.mediaType
    ensures f.radios[i].name != DisplayGroup ==> r.note == f.note
    ensures f.radios[i].name == DisplayGroup ==> r.note.Some? == f.note.Some?
    ensures f.radios[i].name == DisplayGroup && r.note.Some? ==> r.note.value.shown == WantsNote(r.radios)
  {
    var r := f.radios[i];
    var g := f.(radios := Check(f.radios, i), ledger := OptionChange(f.ledger, r));
    if r.name == DisplayGroup then NoteVisibility(g) else g
  }

  /** `handleKeyholeMountChange` after a click on mount `j` flips it: a
      now-checked mount sets `keyhole-mount-<value>` to its `data-price`, an
      unchecked one deletes that key; nothing else changes. */
  function MountClick(f: Form, j: nat): (r: Form)
    requires f.keyhole.Some? && j < |f.keyhole.value.mounts|
    ensures r.keyhole.Some?
    ensures r.keyhole.value == f.keyhole.value.(mounts := r.keyhole.value.mounts)
    ensures r.keyhole.value.mounts == f.keyhole.value.mounts[j := f.keyhole.value.mounts[j].(checked := !f.keyhole.value.mounts[j].checked)]
    ensures var m := f.keyhole.value.mounts[j];
            ToMap(r.ledger) == if m.checked then ToMap(f.ledger) - {MountKey(m.value)}
                               else ToMap(f.ledger)[MountKey(m.value) := MountPrice(m.price)]
    ensures r.radios == f.radios && r.note == f.note && r.base == f.base && r.mediaType == f.mediaType
  {
    var sec := f.keyhole.value;
    var m := sec.mounts[j];
    var key := MountKey(m.value);
    SetView(f.ledger, key, MountPrice(m.price));
    DeleteView(f.ledger, key);
    var ledger := if !m.checked then Set(f.ledger, key, MountPrice(m.price)) else Delete(f.ledger, key);
    f.(keyhole := Some(sec.(mounts := sec.mounts[j := m.(checked := !m.checked)])), ledger := ledger)
  }

  /** `handlePriceRangeChange` given the slider read-out text: the source sets
      `sliderPrice` twice, first to the raw `parseFloat` result and then to
      the clamped price; the second write wins, so the entry ends at the
      slider price, which is never negative nor NaN. */
  function SliderInput(f: Form, text: string): (r: Form)
    ensures ToMap(r.ledger) == ToMap(f.ledger)[SliderKey := Val(SliderPrice(text))]
    ensures ToMap(r.ledger)[SliderKey].v >= 0.0
    ensures r.(ledger := f.ledger) == f
  {
    var price := SliderPrice(text);
    var raw := Set(f.ledger, SliderKey, NumberParsing.ParseFloat(text));
    SetTwice(f.ledger, SliderKey, NumberParsing.ParseFloat(text), Val(price));
    SetView(f.ledger, SliderKey, Val(price));
    f.(ledger := Set(raw, SliderKey, Val(price)))
  }

  /** The total `updateTotalPrice` displays and announces. */
  function TotalPrice(f: Form): Num
  {
    Total(f.base, f.ledger)
  }
}
