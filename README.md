# PageOptions: option synchronisation between page, cookie and URL fragment

PageOptions keeps a page's user-selectable options in step with two storage
sources: a cookie and the query-string part of the URL fragment. The caller
declares each option with these fields:

- a type (String, Number, Boolean or Date);
- a default value;
- the sources it is stored in;
- optional aliases, which are older names still accepted when reading.

Each option becomes an observable property. When the object is built,
values are read from both sources, merged with the fragment winning over
the cookie. Each option takes the value under the first of its names
present, coerced to its type. When the user navigates, the fragment alone
is read again, with defaults applied and the cookie ignored: an option
stored in the fragment that the new fragment no longer mentions returns to
its default, and the sources it is stored in are rewritten.
Setting an option to a value its comparer considers different rewrites
every source it is stored in. A source receives exactly the options stored
in it whose value differs from the default. The fragment writes a date at
midnight as `YYYY-MM-DD`. The fragment gives back text. The cookie's JSON
gives back strings, numbers, booleans and `null`, and `null` is what JSON
writes for an invalid date. Read back into a Date option, `null` becomes
the epoch.

The model is split into these modules:

- `Values`: the option values and type tags, the two sources, and the host functions the engine calls but does not define. It also holds the equality comparer.
- `Decimal` and `Calendar`: decimal text of integers, and the UTC calendar of ECMAScript time values (day number from year, `MakeDay`, civil date of a day).
- `Coercion`: the Boolean and Date coercions, the ISO date pattern, and the fragment writer's date format.
- `Normalize`: `normalizeArray`. It splits on commas, trims each piece in place in an array, and checks each against a list of choices.
- `Engine`: the rules as functions over values:
  - the merge of the sources;
  - the alias scan;
  - the value a read assigns;
  - the object a write hands to each source;
  - the entries each source then holds.
- `PageOptions`: the construction loop, `intersects`, and the class `OptionSet`. The class holds the options and the content of both sources, with methods for setting an option, reading, writing, navigation and clearing.

The methods' contracts track one property of each source: whether it holds
exactly the encoding of what `writeOptions` would write to it now
(`OptionSet.InSync`). This is not part of the class invariant `Valid()`,
and it does not always hold. `ClearAll` empties both sources without
touching the options, and navigation replaces the fragment before it is
read. What the contracts do state: a source that is written ends in step,
and `Set` and `readOptions` keep an untouched source in step if it was.
During a read, an option that changes rewrites its own storage. Every
source touched by the read therefore ends in step with the final options,
because changing an option never alters what is written to a source that
option is not stored in (`Engine.OutgoingIgnores`).

## Model

| member | source | states |
|---|---|---|
| Values.Equal | PageOptions.js:218-225 | The comparer relates only values of one type. Two non-dates are equal exactly when they are the same value, and two invalid dates are always equal. |
| Values.EqualIsEquivalence | PageOptions.js:218-225 | The comparer is reflexive, symmetric and transitive on option values, and it never relates values of different types. |
| Values.DateNeverEqualsPrimitive | PageOptions.js:218-225 | A date and a non-date are unequal in either order. |
| Coercion.MatchesTrue | PageOptions.js:139 | The Boolean coercion is true exactly when the text is `t` or `true`, ignoring ASCII case. |
| Coercion.MatchIso | PageOptions.js:125 | A text the pattern accepts has digits and dashes at the date positions. The captured year, month and day are the numbers those digits denote. The milliseconds are below 1000. A bare date has a zero clock. Anything after the date starts with `T` or is exactly `Z`. |
| Coercion.MatchTimestamp | PageOptions.js:120-125 | The text `JSON.stringify` gives a date, `yyyy-MM-ddTHH:mm:ss.fffZ` (with any number of fraction digits), matches the pattern. The captures are its year, month, day, hour, minute and second, and its fraction as whole milliseconds. |
| Coercion.DateUtc | PageOptions.js:129 | With a zero clock, `Date.UTC` gives a whole number of days, namely the `MakeDay` of the captured date, with years 0-99 taken as 1900-1999. |
| Coercion.DateUtcClock | PageOptions.js:129 | With hour below 24, minute and second below 60 and milliseconds below 1000, `Date.UTC` gives the `MakeDay` of the captured date as its day. Within that day it gives exactly the captured time of day in milliseconds. |
| Coercion.ParseIsoDate | PageOptions.js:125-129 | The parser succeeds exactly when the pattern matches. A bare date `yyyy-MM-dd` parses to UTC midnight of that date. |
| Coercion.ParseClock | PageOptions.js:125-129 | A text the pattern matches whose time of day lies within one day parses to the day of its captured date, at exactly its captured time of day. |
| Coercion.Millis | PageOptions.js:129 | The fractional-seconds digits d give the whole milliseconds in 0.d seconds: ms × 10^n ≤ d × 1000 < (ms + 1) × 10^n for n digits, so ms is below 1000. |
| Coercion.FractionMillis | PageOptions.js:129 | The first three fraction digits, padded with zeros, are the floor of the fraction times 1000. |
| Coercion.Coerce | PageOptions.js:141-150 | The coerced value has the declared type. A String keeps the text. A Boolean is true exactly for `t`/`true` in any case. A Date whose text matches the ISO pattern is that UTC instant. |
| Coercion.ParseEntry | PageOptions.js:141-150 | Parsing a source's entry gives the declared type. Text goes through the string coercion. A JSON number read as a Number is that number. JSON `null` read as a Date is the epoch, which is what `new Date(null)` gives. |
| Coercion.CookieRoundTrip | PageOptions.js:102-107 | Every text, number and boolean written to the cookie reads back as itself. An invalid date, written as JSON `null`, reads back as the epoch. |
| Coercion.FormatUtcDateShape | PageOptions.js:86-88 | For a non-negative year, the UTC date text is the year, then month and day padded to two digits, joined by `-`. |
| Coercion.PadLast | PageOptions.js:88 | The padding replacement turns a final `-` plus one number into `-` plus its two-digit form. |
| Coercion.PadFields | PageOptions.js:88 | The replacement never shortens the text. |
| Coercion.PadFieldsNoDash | PageOptions.js:88 | A text without `-` is left unchanged by the replacement. |
| Coercion.PadMonthDay | PageOptions.js:88 | The padding replacement pads both the month and the day field. |
| Coercion.TwoDigitsValue | PageOptions.js:88 | A padded month or day is two digits that read back as the same number. |
| Coercion.DayRem | PageOptions.js:86 | `value % day` is the remainder that takes the sign of the dividend. It differs from the time value by a whole number of days and lies strictly between minus one day and one day. It is never positive for times before 1970, and it is zero exactly when the time value is a whole number of days. |
| Coercion.FragmentForm | PageOptions.js:83-93 | The UTC-midnight test comes first and gives the padded UTC date. A date at local midnight gives its local date text. Every other value is unchanged. |
| Coercion.MidnightRoundTrip | PageOptions.js:125-129 | The ISO parser reads the fragment's date text of a UTC-midnight time value with a four-digit year back as the same time value. |
| Coercion.MidnightText | PageOptions.js:125 | The fragment's text for a date with a four-digit year matches the ISO pattern, capturing that date's year, month and day and a zero clock. |
| Coercion.MidnightValue | PageOptions.js:129 | Date.UTC applied to a midnight's own year, month and day with a zero clock gives back that midnight. |
| Coercion.FragmentRoundTrip | PageOptions.js:82-96 | Texts, booleans and UTC-midnight dates with four-digit years are given back by the fragment's formatting, String() and coercion to their own type. |
| Coercion.FragmentRoundTripDate | PageOptions.js:86-88 | A UTC midnight with a four-digit year is written as its date text, which parses back to the same time value. |
| Coercion.LocalMidnightEastOfUtc | PageOptions.js:90 | East of UTC, a local midnight after 1970 that is not a UTC midnight fails the local-midnight test and is written with its full time. |
| Calendar.CivilOfDay | PageOptions.js:87 | The UTC year, month (1-12) and date (within the month) of a day number reproduce that day through `MakeDay`. |
| Decimal.DigitsValueOfNatText | PageOptions.js:87 | The decimal text of a natural number reads back as that number. |
| Normalize.Split | PageOptions.js:244-245 | Splitting on commas gives at least one piece, none containing a comma, and the pieces joined with commas give the text back. |
| Normalize.Trim | PageOptions.js:250 | The trimmed text is a contiguous part of the input, with no white space at either end. |
| Normalize.TrimKeeps | PageOptions.js:250 | Trimming a text that neither starts nor ends with white space leaves it unchanged. |
| Normalize.TrimIdempotent | PageOptions.js:250 | Trimming twice gives the same text as trimming once. |
| Normalize.Pieces | PageOptions.js:243-247 | A non-empty string gives comma-free pieces that join back to it. A missing or empty string gives no pieces, and an array is taken as it is. |
| Normalize.FirstInvalid | PageOptions.js:249-253 | There is no invalid token exactly when every token is among the choices. Otherwise the result is a token outside them. |
| Normalize.FirstRejectedIsFirstInvalid | PageOptions.js:249-253 | The first token outside the choices is the one reported. |
| Normalize.NormalizeArray | PageOptions.js:237-256 | A missing or empty input gives no pieces, a string is split on commas, and every piece is trimmed. Success means no choices were given or every piece is among them. Failure reports the first piece outside them. |
| Normalize.TrimEach | PageOptions.js:249-255 | The in-place loop trims every element. It fails at the first element outside the choices. |
| Engine.Merged | PageOptions.js:172 | The merge holds no name that neither source holds. |
| Engine.MergeMembership | PageOptions.js:168-172 | A name is in the merged map exactly when some source read has it. |
| Engine.MergeLastWins | PageOptions.js:168-172 | The merged value of a name comes from the last source in the order that has it. |
| Engine.MergePrecedence | PageOptions.js:168-172 | Both facts together: presence in some source, and the last holder's value. |
| Engine.FragmentOverridesCookie | PageOptions.js:113-115 | With the default order, the fragment's value wins, then the cookie's, and a name in neither is absent. |
| Engine.FirstPresent | PageOptions.js:179-186 | The value found is the one under the first alias present, with every earlier alias absent. Nothing is found exactly when no alias is present. |
| Engine.NameBeatsAliases | PageOptions.js:55 | An option's own name, when present, supplies its value before any alias. |
| Engine.AfterWrite | PageOptions.js:43 | After an observable write, the value is equal under the comparer to the value written. It stays the old value exactly when the comparer finds the new one equal to it. Otherwise it is the new value. |
| Engine.Incoming | PageOptions.js:177-196 | A read assigns nothing to an option exactly when none of its aliases is present and it is not to be reset. A value it assigns has the option's type. |
| Engine.ReadValueMeaning | PageOptions.js:177-196 | An option with nothing assigned keeps its value. An option with a value assigned ends equal to that value under the comparer. |
| Engine.MissingValue | PageOptions.js:187-191 | With no alias present, the option returns to its default exactly when defaults are applied and its storage meets the sources read. Otherwise it keeps its value. |
| Engine.PresentValue | PageOptions.js:193-196 | With an alias present, the option takes the coerced value of the first one, whatever its own storage is. |
| Engine.NavigationReset | PageOptions.js:65-72 | Re-reading the fragment with defaults applied resets an option that is stored in the fragment but absent from it. An absent option not stored in the fragment is left alone. |
| Engine.Outgoing | PageOptions.js:204-210 | Every name in a source's object is the name of one of the options. |
| Engine.OutgoingContent | PageOptions.js:203-210 | The object for a source holds exactly the options stored in it whose value differs from the default, each under its name with its current value. |
| Engine.OutgoingKeys | PageOptions.js:204-206 | The names written to a source are exactly those of the options stored there that differ from their default. |
| Engine.OutgoingValues | PageOptions.js:209-210 | With distinct names, each option written to a source is written with its current value. |
| Engine.DefaultOmitted | PageOptions.js:204-206 | An option equal to its default is written to no source. |
| Engine.OutgoingIgnores | PageOptions.js:204-206 | Changing an option not stored in a source leaves that source's object as it was. |
| Engine.ReadKeepsOutgoing | PageOptions.js:177-210 | When no option a read changes is stored in a source, the object written to that source is the same after the read as before it. |
| Engine.Encoded | PageOptions.js:95 | A write replaces the source's content: the names it holds afterwards are exactly those of the object written. |
| PageOptions.DescriptorError | PageOptions.js:39-40 | A descriptor is refused when its default's type is not the declared type, or when a storage name is not `cookie` or `fragment`. The type check is reported first. |
| PageOptions.Declare | PageOptions.js:42-55 | A declared option starts at its default. Its alias list is its name followed by the trimmed aliases. Its storage holds exactly the sources named in the storage argument. |
| PageOptions.DeclareAll | PageOptions.js:38-63 | One declared option per descriptor, in declaration order. |
| PageOptions.BuildProperties | PageOptions.js:38-63 | Construction succeeds exactly when no descriptor is refused. It then yields the declared options in order, with distinct names. Otherwise it reports the first refused descriptor's error. |
| PageOptions.Intersects | PageOptions.js:227-235 | The result is true exactly when the two source lists share an element. |
| PageOptions.CollectOutgoing | PageOptions.js:203-210 | The object built for a source is the one `Engine.OutgoingContent` describes. |
| PageOptions.FormatFragmentDates | PageOptions.js:83-93 | The fragment writer's pass replaces every value with its fragment form and keeps the names. |
| PageOptions.ReplaceEach | PageOptions.js:83-93 | The in-place pass over the object keeps every name and replaces each value by the given function of it. |
| PageOptions.FindAlias | PageOptions.js:179-186 | The alias scan with its early break finds the value under the first alias present. |
| PageOptions.OptionSet.constructor | PageOptions.js:30-31 | A new object holds the given cookie name, options and source contents. |
| PageOptions.OptionSet.WriteSource | PageOptions.js:82-107 | Writing a source replaces its content with the encoding of the object and leaves the other source alone. |
| PageOptions.OptionSet.WriteFragment | PageOptions.js:82-96 | The fragment becomes the String() texts of the values in fragment form, and the cookie is untouched. |
| PageOptions.OptionSet.WriteCookie | PageOptions.js:105-107 | The cookie becomes the JSON of the values, as `$.parseJSON` gives it back, and the fragment is untouched. |
| PageOptions.OptionSet.WriteOptions | PageOptions.js:200-214 | Every source listed ends in step with the options. Every source not listed is unchanged. |
| PageOptions.OptionSet.Set | PageOptions.js:58-60 | A value equal to the current one changes nothing. Any other value is taken, and the option's storage is rewritten. Other sources keep their content, and stay in step if they were. |
| PageOptions.OptionSet.ReadOne | PageOptions.js:175-196 | One option takes the value the read assigns it. Its storage is rewritten exactly when it changes. |
| PageOptions.OptionSet.ReadMerged | PageOptions.js:174-197 | Once the sources are merged, every option takes the value the read assigns it. The sources some changed option is stored in end in step, and the others keep what they held. |
| PageOptions.OptionSet.ReadOptions | PageOptions.js:163-198 | The read runs over the given sources, or all of them in precedence order. Every option takes the value the read assigns it. Every source some changed option is stored in ends in step with the options. Every other source is unchanged, and stays in step if it was. |
| PageOptions.OptionSet.OnHashChange | PageOptions.js:65-72 | After navigation, every option takes the value a defaults-applying read of the new fragment alone assigns it. Every source an option that changed is stored in is then rewritten to match the options, the cookie included. Every other source keeps what it held. |
| PageOptions.OptionSet.ClearAll | PageOptions.js:116-118 | Both sources are emptied and the options are unchanged. |
| PageOptions.Construct | PageOptions.js:38-64 | Construction fails exactly when a descriptor is refused, reporting the first one. Otherwise the object has the given cookie name and host, and the options are the declared ones after a read of all sources without defaults. The sources that read rewrote are in step, and the others are as given. |

## Left out

- The codecs behind the sources are not modelled: `$.deparam`, `$.bbq.pushState`, `$.cookie` and JSON text. Each source is a map from names to entries. The fragment holds String() of each value as text. The cookie holds what `$.parseJSON` gives back for `JSON.stringify` of each value: a number, a boolean, `null` for an invalid date, or a string. A valid date's JSON string comes from the host function `isoText`.
- Engine.Merged: an empty list of sources merges to an empty map, so `readOptions([])` changes nothing. In the source, `$.extend` called with the single object `{}` (PageOptions.js:172) extends jQuery itself and returns the jQuery function, so options named like its members (`name`, `length`, …) would read those members. The program's own calls (PageOptions.js:64, 71) never pass an empty list. The Engine.Merged, Engine.MergeMembership and Engine.MergePrecedence rows describe the source only for a non-empty list.
- Time values are not clipped to ±8.64 × 10^15 ms, so a number far outside that range read into a Date option stays a valid date.
- These host functions are parameters (`Values.Host`), not definitions:
  - `Date.prototype.toString`, used by the comparer and by String();
  - `toJSON`;
  - `Number()` applied to a text;
  - `new Date(text)` for texts the ISO pattern rejects;
  - `getTimezoneOffset`.
- Numbers are unbounded integers. NaN, infinities and fractions are not modelled. Neither is the loss of precision of doubles above 2^53. `String()` of a number from 1e21 upwards uses exponent notation, which `Decimal.IntText` does not produce.
- Fractional seconds are computed exactly, as the floor of the fraction times 1000. The floating-point artefacts of `parseInt(x * 1000)` are not modelled.
- Feature detection of the host's date parser (PageOptions.js:123-134) is not modelled. The model always uses the ISO pattern, falling back to the host parser.
- Only option values of the four declared types exist. `null`, `undefined` and objects other than dates are never option values, so the comparer's "objects are never equal" case cannot arise. `null` does occur as a cookie entry.
- Knockout's observable internals are not modelled. A write notifies only when the installed comparer says the value changed; this is taken as the observable's behaviour. `subscribe` callbacks of the page (PageOptions.js:152-161) are not modelled.
- Events are not modelled: the `hashchange` registration, and the navigation a fragment write or a clear causes. `OptionSet.OnHashChange` is the handler's effect, for the environment to call.
- Descriptors are a sequence of distinct names in `for…in` order. The reordering of integer-like keys by `for…in` is not modelled.
- Option names that collide with the object's own members are not modelled.
- Changes `normalizeArray` makes to an array argument the caller still holds are not modelled.
- A descriptor without `storage` gets no storage, following the code. It is not stored in both sources.
- Coercion.MidnightRoundTrip: only years 1000 to 9999 are covered. Other years are not written with four digits, so the ISO pattern rejects them.
- Coercion.FragmentRoundTrip: numbers are not covered, because their text is read back by the host's `Number`. Dates at other times of day are not covered, because their text is the host's `toString`. Local-midnight dates are not covered either. Their local date text reads back through the ISO pattern as UTC midnight of that date, which is a different time value unless the offset is zero.
- Coercion.PadFields: the contract states only that the text never gets shorter. That the replacement inserts nothing but zeros is not stated.
