# Product-form price updater, modelled in Dafny

`ProductFormPriceUpdater` (assets/product-form-price-updater.js) keeps the
price shown on a product page in step with the options a customer picks:
record-album media type, display preference, service type, keyhole mounts and
a price slider. It has four parts, and this project models each of them as
immutable data and pure functions:

* **The option ledger.** This is a JavaScript `Map` from option key to signed
  price delta. The total shown is `max(0, base + Σ entries)`. A radio change
  writes the radio's group name. A keyhole checkbox writes
  `keyhole-mount-<value>`. The slider writes `sliderPrice`, clamped at 0.
* **Price-text parsing.** `extractPrice` keeps only `0-9 . -` and reads the
  longest decimal-literal prefix the way `parseFloat` does. When nothing
  parses it falls back to 0. `getBasePrice` has no such fallback, so the base
  can be NaN. A keyhole price `parseFloat(data-price || 0)` can be NaN too.
* **Radio selection and visibility repair.** The radios of the form are one
  sequence in document order; each has `shown` and `checked` flags. A
  media-type change does three things:
  * it shows the display options whose `data-type` equals the media type;
  * it shows the service options whose comma-split `data-allowed-types`
    names it;
  * it hides and clears the keyhole mounts unless the type is `records`.

  When a group has a visible option and its checked radio is hidden or
  missing, the first visible radio is checked. Its dispatched `change`
  event updates the ledger.
* **Labels and flags.** The rule that shows the custom-note section. The
  field label (trimmed section title, or the title-cased name). The
  `properties[`/`]` clean-up. The object `collectFormProperties` hands to
  the cart.

Modules, in dependency order:

| file | module | contents |
|---|---|---|
| wrappers.dfy | `Wrappers` | `Option` |
| js_number.dfy | `JsNumber` | JavaScript numbers as `Val(real)` or `NaN`; `+` and `Math.max(0, ·)` |
| text.dfy | `Text` | `trim`, ASCII `toLowerCase`/`toUpperCase`, `includes`, first-occurrence `replace`, `split`/`join` |
| number_parsing.dfy | `NumberParsing` | `parseFloat` as a longest-prefix scanner of a StrDecimalLiteral |
| price_text.dfy | `PriceText` | `extractPrice`, `getBasePrice`, the keyhole and slider prices |
| option_ledger.dfy | `OptionLedger` | the insertion-ordered ledger, its map view, sum and total |
| product_form.dfy | `ProductForm` | the form state, radio selection, the three ledger handlers, the custom-note rule |
| visibility.dfy | `Visibility` | display filtering, service-type visibility, the repair rule, the keyhole toggle, media-type changes |
| consistency.dfy | `Consistency` | the invariant "ledger mirrors the checked options", preserved by every handler |
| labels.dfy | `Labels` | `getFieldLabel` and the label clean-up |
| properties.dfy | `Properties` | `collectFormProperties` |
| startup.dfy | `Startup` | the constructor and `init` |

The central invariant is `Consistency.Consistent`. It has three parts:

* at most one radio per group is checked;
* the ledger mirrors the selections: a checked priced radio's group and a
  checked keyhole box have their entries, and every entry belongs to one of
  them or to the slider;
* the custom-note section's visibility agrees with the checked display
  option.

Every event handler preserves it when the markup keeps the three kinds of
key apart. That markup condition is `Consistency.Markup`: no radio is named
`sliderPrice` or `keyhole-mount-…`, and keyhole values are distinct.

## Model

| member | source | states |
|---|---|---|
| JsNumber.AddLaws | assets/product-form-price-updater.js:145 | `+=` on numbers is commutative and associative, 0 changes nothing and NaN absorbs, so on exact reals (not on doubles) the order of the ledger's values does not change the sum |
| JsNumber.MaxZero | assets/product-form-price-updater.js:149 | `Math.max(0, x)`: NaN stays NaN; otherwise the result is non-negative, at least `x`, and is `x` or 0 |
| Text.Trim | assets/product-form-price-updater.js:293 | `trim()` is a slice of the text with only JavaScript white space before and after it, and no white space at either of its own ends |
| Text.TrimUnique | assets/product-form-price-updater.js:293 | any such slice with no white space at its ends is the trimmed text, so `trim()` is determined |
| Text.LowerLowers | assets/product-form-price-updater.js:187 | `toLowerCase()` leaves no upper-case letter, keeps every other character, and turns each upper-case letter into its lower-case one |
| Text.LowerIdempotent | assets/product-form-price-updater.js:187 | lower-casing twice is lower-casing once |
| Text.Includes | assets/product-form-price-updater.js:187 | `includes(p)` holds iff `p` occurs at some position |
| Text.ReplaceFirst | assets/product-form-price-updater.js:264 | `replace` with a string pattern replaces only the first occurrence, and changes nothing when there is none |
| Text.Split | assets/product-form-price-updater.js:298 | `split(sep)` gives at least one piece, no piece holds `sep`, and joining the pieces with `sep` gives back the input |
| NumberParsing.ParseFloat | assets/product-form-price-updater.js:232 | `parseFloat` is NaN exactly when the text has no numeric prefix |
| NumberParsing.ParseWrittenLiteral | assets/product-form-price-updater.js:232 | any decimal literal (sign, digits, fraction, exponent) followed by text that does not continue it is read back as the literal's value: the longest literal prefix wins |
| NumberParsing.SkipLeadingSpace | assets/product-form-price-updater.js:232 | leading white space does not change what `parseFloat` reads |
| NumberParsing.PlusSign | assets/product-form-price-updater.js:232 | a leading `+` does not change what `parseFloat` reads |
| NumberParsing.ParseCentsText | assets/product-form-price-updater.js:232 | parsing a printed amount `[-]d….dd` followed by a non-numeric tail gives back the amount |
| PriceText.KeepPriceChars | assets/product-form-price-updater.js:231 | the filter keeps only digits, `.` and `-` |
| PriceText.KeepPriceCharsAppend | assets/product-form-price-updater.js:231 | the filter works character by character: filtering a concatenation concatenates the filtered parts |
| PriceText.KeepPriceCharsExact | assets/product-form-price-updater.js:231 | text of price characters only is kept whole; text without any vanishes |
| PriceText.ExtractPrice | assets/product-form-price-updater.js:228-234 | `extractPrice` never fails: empty text and unparsable filtered text give 0; otherwise the result is what `parseFloat` reads from the filtered text |
| PriceText.ExtractPrintedPrice | assets/product-form-price-updater.js:228-234 | a price printed as `$12.34`-style text between non-price characters is read back exactly |
| PriceText.BasePrice | assets/product-form-price-updater.js:42-49 | no price element gives 0; NaN exactly when the filtered text does not parse (no NaN guard); otherwise the same value as `extractPrice` |
| PriceText.MountPrice | assets/product-form-price-updater.js:476 | `parseFloat(data-price \|\| 0)`: a missing or empty attribute gives 0; NaN exactly when a non-empty attribute does not parse |
| PriceText.MountPriceReadBack | assets/product-form-price-updater.js:476 | a `data-price` holding a written number, possibly followed by text that does not continue it, gives that number |
| PriceText.MountPriceOfAmount | assets/product-form-price-updater.js:476 | a `data-price` holding a printed amount such as `12.50` gives its value |
| PriceText.SliderPrice | assets/product-form-price-updater.js:130-136 | the slider entry is never negative; it is the parsed value when that is a non-negative number, and 0 otherwise |
| OptionLedger.ToMap | assets/product-form-price-updater.js:6 | the map view of the ledger has exactly its keys, each with its entry's price |
| OptionLedger.SetView | assets/product-form-price-updater.js:220 | `Map.set` changes the view at one key only, and keeps the existing keys in place, in order |
| OptionLedger.DeleteView | assets/product-form-price-updater.js:222 | `Map.delete` removes one key from the view; deleting an absent key changes nothing |
| OptionLedger.SetTwice | assets/product-form-price-updater.js:131-135 | a second `set` of a key overrides the first: the slider's double write equals its last write |
| OptionLedger.SumFromIsMapSum | assets/product-form-price-updater.js:141-146 | the loop over `values()` is NaN iff the base or some entry is NaN, and otherwise equals base plus the sum over the map |
| OptionLedger.TotalIsClampedSum | assets/product-form-price-updater.js:140-149 | the total is `max(0, base + Σ entries)`, NaN when the base or an entry is NaN, and never negative |
| OptionLedger.TotalAfterSet | assets/product-form-price-updater.js:218-225 | when the key's old entry is a number or absent, the total after setting it to `v` is the old ledger's total with the base moved by `v` minus the old entry (0 when absent) |
| OptionLedger.TotalAfterDelete | assets/product-form-price-updater.js:221-225 | when the key's old entry is a number or absent, the total after deleting it is the old ledger's total with the base lowered by that entry (0 when absent) |
| ProductForm.First | assets/product-form-price-updater.js:182-184 | `querySelector` finds the first matching radio in document order, or none when none matches |
| ProductForm.CheckSelects | assets/product-form-price-updater.js:66 | after checking a radio only `checked` flags have changed, it is the only checked radio of its group and the one `:checked` finds first, and other groups are untouched |
| ProductForm.CheckLastWins | assets/product-form-price-updater.js:66 | checking two radios of one group in turn leaves the state of checking the second alone |
| ProductForm.NoteVisibilityAgrees | assets/product-form-price-updater.js:176-193 | afterwards the note section's visibility agrees with the custom-note rule on the (unchanged) radios, its text is kept, and a second evaluation changes nothing |
| ProductForm.AfterOptionChangeLastWins | assets/product-form-price-updater.js:213-226 | a later option change in the same group overrides an earlier one |
| ProductForm.AfterOptionChangeCommutes | assets/product-form-price-updater.js:213-226 | option changes in different groups give the same ledger in either order |
| ProductForm.OptionChange | assets/product-form-price-updater.js:213-226 | `handleOptionChange` on the ledger itself has the view `AfterOptionChange` describes |
| ProductForm.SelectRadio | assets/product-form-price-updater.js:88-103 | the radio handler: the radio is the only checked one of its group, other groups are untouched, the ledger changes as `AfterOptionChange` says, and a display radio re-evaluates the note |
| ProductForm.MountClick | assets/product-form-price-updater.js:474-486 | a keyhole click toggles one box; the ledger view gains `keyhole-mount-<value>` at its price when the box becomes checked and loses it when unchecked, and nothing else changes |
| ProductForm.SliderInput | assets/product-form-price-updater.js:127-138 | the slider sets only `sliderPrice`, to a non-negative value |
| Visibility.AllowedTypesNeverEmpty | assets/product-form-price-updater.js:402-405 | the `!allowedTypes.length` alternative never fires: a service option is shown iff its list names the selected type |
| Visibility.NoAllowedTypesHidden | assets/product-form-price-updater.js:402-405 | an option with no or empty `data-allowed-types` is shown only for the empty media type |
| Visibility.RevealLaws | assets/product-form-price-updater.js:441-449 | the first pass changes only `shown` flags, running it twice is running it once, and the passes over two different groups commute |
| Visibility.Repair | assets/product-form-price-updater.js:416-431 | when the group has a visible option and its checked radio is hidden or missing, the result is the dispatched change of the first visible radio; otherwise nothing changes; afterwards no repair is needed |
| Visibility.FilterDisplayOptions | assets/product-form-price-updater.js:437-472 | a display option is shown iff its `data-type` equals the selected type; other groups are untouched; afterwards the group is settled |
| Visibility.UpdateServiceTypeVisibility | assets/product-form-price-updater.js:391-435 | a service option is shown iff its allowed-type list names the selected type; other groups are untouched; afterwards the group is settled |
| Visibility.FilterKeepsSelection | assets/product-form-price-updater.js:452-471 | when no option is visible, or the checked one stays visible, the selection, ledger and note are unchanged |
| Visibility.FilterRepairsSelection | assets/product-form-price-updater.js:452-468 | when some option is visible and the checked one is not, the first visible option becomes the only checked one and the ledger takes its price |
| Visibility.ServiceRepair | assets/product-form-price-updater.js:416-431 | the same repair rule for service types, in both of its cases |
| Visibility.ToggleKeyholeMounts | assets/product-form-price-updater.js:352-371 | both sections are shown iff the type is `records`; otherwise every box is unchecked and the entries of the boxes that were checked are removed; for `records` the ledger is untouched |
| Visibility.FilterFixesSettled | assets/product-form-price-updater.js:437-472 | filtering a settled display group is a no-op |
| Visibility.ServiceFixesSettled | assets/product-form-price-updater.js:391-435 | updating a settled service group is a no-op |
| Visibility.ToggleFixesSettled | assets/product-form-price-updater.js:352-371 | toggling mounts that already agree with the type is a no-op |
| Visibility.ApplyMediaTypeSettles | assets/product-form-price-updater.js:110-112 | after the three calls, display, service and keyhole sections all agree with the media type |
| Visibility.ApplyMediaTypeIdempotent | assets/product-form-price-updater.js:325-330 | running the three calls twice equals running them once |
| Visibility.ClickIsRadioChange | assets/product-form-price-updater.js:325-388 | the listeners registered a second (:325-331) and third (:383-388) time for media radios change nothing beyond the first handler |
| Consistency.TotalNaNOnlyFromBaseOrMount | assets/product-form-price-updater.js:140-149 | in a consistent form the total is NaN iff the base price is NaN or a checked keyhole box's price is NaN |
| Consistency.SelectRadioConsistent | assets/product-form-price-updater.js:88-103 | the radio handler preserves the invariant |
| Consistency.WantsNoteIffCustomChecked | assets/product-form-price-updater.js:182-192 | with one checked radio per group, the note is wanted iff a checked display option's lower-cased value contains `custom` |
| Consistency.NoteVisibilityConsistent | assets/product-form-price-updater.js:176-193 | re-evaluating the note preserves the invariant |
| Consistency.FilterConsistent | assets/product-form-price-updater.js:437-472 | display filtering with its repair preserves the invariant |
| Consistency.ServiceConsistent | assets/product-form-price-updater.js:391-435 | service-type visibility with its repair preserves the invariant |
| Consistency.ToggleConsistent | assets/product-form-price-updater.js:352-371 | the keyhole toggle preserves the invariant |
| Consistency.ToggleClearsMountKeys | assets/product-form-price-updater.js:359-369 | after a toggle to a type other than `records` no `keyhole-mount-` entry is left |
| Consistency.MountClickConsistent | assets/product-form-price-updater.js:474-486 | a keyhole click preserves the invariant |
| Consistency.SliderInputConsistent | assets/product-form-price-updater.js:127-138 | a slider input preserves the invariant |
| Consistency.ApplyMediaTypeConsistent | assets/product-form-price-updater.js:106-113 | a media-type change preserves the invariant |
| Consistency.RadioChangeConsistent | assets/product-form-price-updater.js:87-114 | the whole radio listener preserves the invariant |
| Consistency.ClickRadioConsistent | assets/product-form-price-updater.js:87-114 | a click with all of its listeners preserves the invariant |
| Consistency.ClickRadioSelects | assets/product-form-price-updater.js:90-97 | after a click the radio is the only checked one of its group; a media radio sets the current type and leaves every section settled for it |
| Labels.CapitaliseUpper | assets/product-form-price-updater.js:299 | a capitalised word does not start with a lower-case letter and keeps the rest; a word not starting with one is unchanged; capitalising twice is capitalising once |
| Labels.NameLabelIsTitleCase | assets/product-form-price-updater.js:297-300 | split, capitalise and join equals the character-wise rule: `-` becomes a space, and a character that starts the name or follows `-` is upper-cased |
| Labels.FieldLabel | assets/product-form-price-updater.js:288-301 | the trimmed section title when there is one, otherwise the title-cased name |
| Labels.CleanGroupName | assets/product-form-price-updater.js:264 | cleaning `properties[inner]` gives `inner` when `inner` has no `]` |
| Labels.CleanPlainLabel | assets/product-form-price-updater.js:264 | a label without `properties[` or `]` is left as it is |
| Labels.FallbackKeepsPrefix | assets/product-form-price-updater.js:264 | a name `properties[inner]` without a section title is capitalised to `Properties[…`, so the clean-up drops only the `]` |
| Properties.Overwrite | assets/product-form-price-updater.js:265-268 | property writes in order: a key is present iff some write names it |
| Properties.OverwriteLastWins | assets/product-form-price-updater.js:265-268 | a key holds the value of its last write |
| Properties.CollectRadios | assets/product-form-price-updater.js:256-269 | keys are exactly the cleaned labels of checked radios; a label's entry is the last such radio's value and price |
| Properties.CollectFormProperties | assets/product-form-price-updater.js:252-286 | `Custom Note` with price 0 is present when the note section is displayed; the other keys and values are those of the radios |
| Properties.CollectedPriceIsLedgerPrice | assets/product-form-price-updater.js:261-267 | in a consistent form, the price filed for a checked radio is its group's ledger entry, or 0 when it has none |
| Properties.CustomNoteCollected | assets/product-form-price-updater.js:271-283 | in a consistent form, the note is collected iff the checked display option asks for it |
| Startup.GroupNames | assets/product-form-price-updater.js:55-58 | the `Set` of group names: distinct, and exactly the names of the radios |
| Startup.FirstNamed | assets/product-form-price-updater.js:62-64 | the first radio with a name, or none when no radio has it |
| Startup.CheckFirstRadiosInGroups | assets/product-form-price-updater.js:51-75 | exactly the first radio of each group ends checked |
| Startup.InitSelectedOptions | assets/product-form-price-updater.js:195-211 | the ledger holds exactly the groups with a checked priced radio |
| Startup.InitSelectedOptionsPrices | assets/product-form-price-updater.js:197-207 | each such group's entry is its checked radio's extracted price |
| Startup.SelectRadioKeepsGroupsChecked | assets/product-form-price-updater.js:90-97 | a radio change leaves every group with a checked radio |
| Startup.FilledFormConsistent | assets/product-form-price-updater.js:32-35 | the form after the first checks, the initial ledger and the note is consistent |
| Startup.StartupMediaUpdates | assets/product-form-price-updater.js:313-389 | the start-up filter, double toggle and service update equal one media-type change |
| Startup.Construct | assets/product-form-price-updater.js:27-40 | after `init`: base price read, `currentMediaType` is `records`, of the media-type radios only the first is checked, every group has exactly one checked radio, the sections agree with the first media radio, and the invariant holds for a markup without pre-checked keyhole boxes |

## Left out

- `Intl.NumberFormat` formatting, the writes of the formatted price into the page, and the `price:updated` event (:151-173): library formatting and DOM output. The model stops at the number `updateTotalPrice` computes (`ProductForm.TotalPrice`).
- `console.log` calls: logging only.
- The DOM: element lookups become fields of the form state (`Radio.priceText`, `Radio.sectionTitle`, `Radio.shown`, the keyhole and note sections), `style.display` is a boolean, and a dispatched `change` event is a direct call to the handler it reaches.
- The `form:data` listener, `FormData.append` and `JSON.stringify` (:236-250): serialisation and I/O. `collectFormProperties` itself is modelled.
- assets/product-form.js is not part of this model: it is cart submission over the network and drawer rendering.
- NumberParsing.ParseFloat: its value is stated for literals in the shape `Literal.Spelled` writes (`e` as the exponent marker, no exponent `+`, a `.` only before fraction digits) and for leading white space and `+`; `5.`, `5.e3`, `E` and an exponent `+` are read by the model, but no lemma states their value.
- IEEE doubles: numbers are exact reals plus NaN. Rounding, `Infinity`, `-0` and the `Infinity` literal of `parseFloat` are not modelled; that literal reads as NaN here.
- `toLowerCase`/`toUpperCase` map ASCII letters only.
- The JavaScript object's key order in `collectFormProperties` is not modelled; the result is a map.
- Paths that throw in the source are not modelled: a radio outside any `.radio-container`, a missing `#priceRangeSlider` element, or a missing record-size section next to a present keyhole section.
- Each display and service option container holds one radio, so the container's visibility is the radio's `shown` flag. The source picks display options by container (`#display-section .album-details-form__field`, :9-11) and service options by container (`.service-type-option`, :17), and its repair takes a container's first radio of any name (:422, :458); the model picks them by radio name instead, assuming those containers hold exactly the radios named `properties[display-preference]` and `properties[service-type]`. `document.querySelector` and `form.querySelector` are treated as the same lookup.
- The constructor's `if (!this.form) return` path leaves no state to model; `Startup.Construct` takes the form's contents as parameters.
- ProductForm.CheckSelects, ProductForm.Check, ProductForm.SelectRadio, Consistency.ClickRadioSelects: every radio is assumed to carry a non-empty `name` attribute. Radios with an empty or missing name are treated as one group, so checking one unchecks the others; the browser does not group them and the handler's `[name=""]` selector (:93) never matches a radio without the attribute, so the source can leave several of them checked.
- Startup.FirstNamed, Startup.CheckFirstRadiosInGroups: every radio is assumed to carry a non-empty `name` attribute. For the name `""` the model finds the first unnamed radio and leaves exactly it checked, whereas `querySelector('input[type="radio"][name=""]')` (:62-64) finds no radio without a name attribute, so the source may leave none or several of them checked.
- Startup.Construct: "every group has exactly one checked radio" and the invariant rest on the same non-empty-name assumption.
- Startup.Construct: the invariant is stated only for markup without pre-checked keyhole boxes, because `initializeSelectedOptions` reads radios only, so a pre-checked box's price never enters the ledger.
- Startup.Construct: the media type is not read back from the checked media radio; `currentMediaType` stays `records` after `init`, as the source has it.
- OptionLedger.TotalAfterSet, OptionLedger.TotalAfterDelete: stated only when the key's old entry is a number or absent. A NaN entry makes the old total NaN, so no shift of the base relates the two totals.
