/** `collectFormProperties` (assets/product-form-price-updater.js:252-286):
    the object of selections the form contributes to the cart, one entry per
    checked radio under its cleaned field label, plus the custom note when
    its section is displayed. A JavaScript object is modelled as a map; the
    key order of the object is not modelled. */
module Properties {
  import opened Wrappers
  import opened JsNumber
  import opened PriceText
  import opened OptionLedger
  import opened ProductForm
  import opened Labels
  import opened Consistency

  /** The `{ value, price }` record stored per field. */
  datatype Property = Property(value: string, price: real)

  const CustomNoteKey: string := "Custom Note"

  /** `getOptionPrice` (:303-311) followed by `price || 0`: the extracted
      price of the option's price text, 0 when it has none. `extractPrice`
      never yields NaN, so the `|| 0` changes nothing. */
  function OptionPrice(r: Radio): real
  {
    match r.priceText
    case Some(t) => ExtractPrice(t)
    case None => 0.0
  }

  /** The key a checked radio is filed under. */
  function PropertyKey(r: Radio): string
  {
    CleanLabel(FieldLabel(r.sectionTitle, r.name))
  }

  /** A write `properties[key] = prop`, or none for an unchecked radio. */
  datatype Filed = Filed(key: string, prop: Property)

  /** The writes land in order: the object holds exactly the keys written. */
  function Overwrite(ws: seq<Option<Filed>>): (m: map<string, Property>)
    ensures forall k :: k in m <==> exists i | 0 <= i < |ws| :: ws[i].Some? && ws[i].value.key == k
  {
    if ws == [] then map[]
    else
      var init := ws[..|ws| - 1];
      var m := Overwrite(init);
      assert forall i | 0 <= i < |init| :: init[i] == ws[i];
      match ws[|ws| - 1]
      case Some(w) => m[w.key := w.prop]
      case None => m
  }

  /** No write after position `i` goes to the same key. */
  predicate LastWrite(ws: seq<Option<Filed>>, i: nat)
    requires i < |ws| && ws[i].Some?
  {
    forall j | i < j < |ws| :: !(ws[j].Some? && ws[j].value.key == ws[i].value.key)
  }

  /** The last write to a key is the value it holds. */
  lemma {:induction false} OverwriteLastWins(ws: seq<Option<Filed>>, i: nat)
    requires i < |ws| && ws[i].Some? && LastWrite(ws, i)
    ensures ws[i].value.key in Overwrite(ws) && Overwrite(ws)[ws[i].value.key] == ws[i].value.prop
  {
    var n := |ws| - 1;
    var init := ws[..n];
    var m := Overwrite(init);
    var key := ws[i].value.key;
    if i < n {
      assert init[i] == ws[i];
      assert LastWrite(init, i) by {
        forall j | i < j < |init| ensures !(init[j].Some? && init[j].value.key == key) {
          assert init[j] == ws[j];
        }
      }
      OverwriteLastWins(init, i);
      match ws[n]
      case Some(w) =>
        assert w.key != key;
        assert Overwrite(ws) == m[w.key := w.prop];
      case None =>
        assert Overwrite(ws) == m;
    } else {
      assert Overwrite(ws) == m[key := ws[i].value.prop];
    }
  }

  /** The write the collection loop makes for each radio. */
  function Writes(rs: seq<Radio>): (ws: seq<Option<Filed>>)
    ensures |ws| == |rs|
  {
    seq(|rs|, i requires 0 <= i < |rs| =>
      if rs[i].checked then Some(Filed(PropertyKey(rs[i]), Property(rs[i].value, OptionPrice(rs[i])))) else None)
  }

  /** No checked radio after position `i` is filed under the same key, so
      radio `i`'s entry is the one that survives. */
  predicate LastWithKey(rs: seq<Radio>, i: nat)
    requires i < |rs|
  {
    forall j | i < j < |rs| :: !(rs[j].checked && PropertyKey(rs[j]) == PropertyKey(rs[i]))
  }

  lemma WritesKeys(rs: seq<Radio>, k: string)
    ensures (exists i | 0 <= i < |rs| :: Writes(rs)[i].Some? && Writes(rs)[i].value.key == k)
        <==> exists i | 0 <= i < |rs| :: rs[i].checked && PropertyKey(rs[i]) == k
  {
    var ws := Writes(rs);
    if exists i | 0 <= i < |rs| :: ws[i].Some? && ws[i].value.key == k {
      var i :| 0 <= i < |rs| && ws[i].Some? && ws[i].value.key == k;
      assert rs[i].checked && PropertyKey(rs[i]) == k;
    }
    if exists i | 0 <= i < |rs| :: rs[i].checked && PropertyKey(rs[i]) == k {
      var i :| 0 <= i < |rs| && rs[i].checked && PropertyKey(rs[i]) == k;
      assert ws[i].Some? && ws[i].value.key == k;
    }
  }

  lemma WritesLast(rs: seq<Radio>, i: nat)
    requires i < |rs| && rs[i].checked && LastWithKey(rs, i)
    ensures var ws := Writes(rs);
            && ws[i] == Some(Filed(PropertyKey(rs[i]), Property(rs[i].value, OptionPrice(rs[i]))))
            && LastWrite(ws, i)
  {
    var ws := Writes(rs);
    forall j | i < j < |ws| ensures !(ws[j].Some? && ws[j].value.key == ws[i].value.key) {
      assert !(rs[j].checked && PropertyKey(rs[j]) == PropertyKey(rs[i]));
    }
  }

  /** The checked radios, in document order, each writing its entry over any
      earlier one with the same key. */
  function CollectRadios(rs: seq<Radio>): (m: map<string, Property>)
    ensures forall k :: k in m <==> exists i | 0 <= i < |rs| :: rs[i].checked && PropertyKey(rs[i]) == k
    ensures forall i | 0 <= i < |rs| && rs[i].checked && LastWithKey(rs, i) ::
      PropertyKey(rs[i]) in m && m[PropertyKey(rs[i])] == Property(rs[i].value, OptionPrice(rs[i]))
  {
    var m := Overwrite(Writes(rs));
    forall k ensures k in m <==> exists i | 0 <= i < |rs| :: rs[i].checked && PropertyKey(rs[i]) == k {
      WritesKeys(rs, k);
    }
    forall i | 0 <= i < |rs| && rs[i].checked && LastWithKey(rs, i)
      ensures PropertyKey(rs[i]) in m && m[PropertyKey(rs[i])] == Property(rs[i].value, OptionPrice(rs[i]))
    {
      WritesLast(rs, i);
      OverwriteLastWins(Writes(rs), i);
    }
    m
  }

  /** The collected object: the radio entries, then `Custom Note` with price
      0 when the note section is present and not hidden. */
  function CollectFormProperties(f: Form): (r: map<string, Property>)
    ensures f.note.Some? && f.note.value.shown ==>
      CustomNoteKey in r && r[CustomNoteKey] == Property(f.note.value.text, 0.0)
    ensures !(f.note.Some? && f.note.value.shown) ==> r == CollectRadios(f.radios)
    ensures forall k | k != CustomNoteKey :: (k in r <==> k in CollectRadios(f.radios))
    ensures forall k | k != CustomNoteKey && k in r :: r[k] == CollectRadios(f.radios)[k]
  {
    var m := CollectRadios(f.radios);
    match f.note
    case Some(n) => if n.shown then m[CustomNoteKey := Property(n.text, 0.0)] else m
    case None => m
  }

  /** In a consistent form the price filed for a checked radio is the price
      its group contributes to the total: its ledger entry, or 0 when the
      group has none. */
  lemma CollectedPriceIsLedgerPrice(f: Form, i: nat)
    requires i < |f.radios| && Consistent(f)
    requires f.radios[i].checked && LastWithKey(f.radios, i)
    requires PropertyKey(f.radios[i]) != CustomNoteKey
    ensures var r := CollectFormProperties(f);
            var m := ToMap(f.ledger);
            var name := f.radios[i].name;
            && PropertyKey(f.radios[i]) in r
            && r[PropertyKey(f.radios[i])].value == f.radios[i].value
            && (name in m ==> m[name] == Val(r[PropertyKey(f.radios[i])].price))
            && (name !in m ==> r[PropertyKey(f.radios[i])].price == 0.0)
  {
    assert RadioMirrored(ToMap(f.ledger), f.radios[i]);
  }

  /** In a consistent form with a custom-note section, the note is collected
      exactly when the checked display option asks for it. */
  lemma CustomNoteCollected(f: Form)
    requires Consistent(f) && f.note.Some?
    requires forall i | 0 <= i < |f.radios| :: PropertyKey(f.radios[i]) != CustomNoteKey
    ensures CustomNoteKey in CollectFormProperties(f) <==> WantsNote(f.radios)
  {
  }
}
