# getPhotos performance screen: a Dafny model

The example app of the camera-roll library has a screen for measuring how long the
photo-listing call `getPhotos` takes. The screen has:

- one switch per optional field (`filename`, `fileSize`, `location`, `imageSize`,
  `playableDuration`),
- a text field holding the page size `first`,
- a run button that issues one call and shows the elapsed time and the result.

This project models the logic behind the screen and proves its properties. It has three parts.

- **The page-size validator `first()`.** It reads the text with ECMAScript's
  `parseInt(text, 10)`, as section 19.2.5 of ECMA-262 defines it:
  - skip leading white space;
  - take one optional sign;
  - take the longest run of decimal digits;
  - no digits gives NaN.

  The validator keeps the value only when it is a non-negative integer (`Number.isInteger`,
  section 21.1.2.3 of ECMA-262). Otherwise the count is `null`.
  - `EcmaNumber` defines the parse and characterises it. Its result is `n` exactly when the
    text splits into white space, a sign, a maximal digit run denoting `n`, and an ignored tail.
  - Beside the parse, `NumberToString` renders a count as its exact decimal digits. This
    agrees with Number::toString (section 6.1.6.1.20 of ECMA-262) for counts up to 2^53 (see
    "## Left out"). A round-trip lemma ties the rendering to the parse.
  - `PageSize` is `first()`.
- **The include-list toggle `handleIncludeChange`** (module `Include`). Switching a field
  off filters every occurrence of it out of the list. Switching it on appends it, with no
  de-duplication.
- **The fetch lifecycle** (module `PerformanceScreen`). The component state is the class
  `GetPhotosPerformanceExample`. The asynchronous `startFetchingPhotos` is split at its `await`:
  - `StartFetchingPhotos` runs the guard, sets the flag and builds the request snapshot;
  - `Resolve` is the combined update after the call returns;
  - `Reject` is a failed call, after which nothing more runs.

  A ghost multiset `pending` holds the calls issued and not settled yet; only such a call can
  resolve or be rejected. `Press` models the
  run button, which is disabled while `fetchingPhotos` is set. This guard is the only thing
  that keeps to one call at a time.

Files:

| file | contents |
|---|---|
| `wrappers.dfy` | `Option`, where `None` stands for `null` and for NaN |
| `parse_int.dfy` | `parseInt` with radix 10, and `NumberToString` |
| `page_size.dfy` | `first()` |
| `include.dfy` | the field vocabulary and the toggle |
| `screen.dfy` | the component state and its transitions |

## Model

| member | source | states |
|---|---|---|
| EcmaNumber.ParseInt | example/js/GetPhotosPerformanceExample.tsx:54 | `parseInt(firstStr, 10)`; its meaning is given by EcmaNumber.ParseIntCharacterized and EcmaNumber.ParseIntNaN |
| EcmaNumber.ParseIntCharacterized | example/js/GetPhotosPerformanceExample.tsx:54 | the parse of a text gives `v` if and only if the text is white space, an optional sign, a non-empty maximal run of digits and any non-digit tail, and sign and digits denote `v` |
| EcmaNumber.ParseIntNaN | example/js/GetPhotosPerformanceExample.tsx:54 | the parse gives NaN if and only if the text has no such decomposition, that is, no digit follows the white space and the sign |
| EcmaNumber.ParseIntOfParts | example/js/GetPhotosPerformanceExample.tsx:54 | every decomposition into white space, sign, maximal digits and tail is the one the parse takes, so its value is the result |
| EcmaNumber.PartsOfParse | example/js/GetPhotosPerformanceExample.tsx:54 | whenever the parse gives a number, it returns the white space, sign, digits and tail that produce it |
| EcmaNumber.ParseIntOfConcat | example/js/GetPhotosPerformanceExample.tsx:54 | text built from white space, a sign, digits and a non-digit tail parses to the signed value of the digits |
| EcmaNumber.TrimStartSplit | example/js/GetPhotosPerformanceExample.tsx:54 | what the parse skips at the front is white space, and the text is that white space followed by the rest |
| EcmaNumber.DigitPrefixSplit | example/js/GetPhotosPerformanceExample.tsx:54 | the digit run the parse takes is followed by nothing or by a non-digit |
| EcmaNumber.TrimStart | example/js/GetPhotosPerformanceExample.tsx:54 | the trimmed text is no longer than the input and does not start with white space |
| EcmaNumber.DigitPrefix | example/js/GetPhotosPerformanceExample.tsx:54 | the digit prefix is all digits and no longer than the input |
| EcmaNumber.NumberToString | example/js/GetPhotosPerformanceExample.tsx:135 | a count is shown as its exact decimal digits: a non-empty digit run with no leading zero; this is Number::toString for counts up to 2^53 |
| EcmaNumber.DigitsValueOfNumberToString | example/js/GetPhotosPerformanceExample.tsx:135 | the digits shown for a count denote that count |
| EcmaNumber.ParseIntOfNumberToString | example/js/GetPhotosPerformanceExample.tsx:54 | a shown count, with any leading white space and any non-digit tail, parses back to that count |
| PageSize.IsNegative | example/js/GetPhotosPerformanceExample.tsx:55 | the test `first < 0` on a parse result; NaN is never negative |
| PageSize.NumberIsInteger | example/js/GetPhotosPerformanceExample.tsx:55 | the test `Number.isInteger(first)`: false for NaN and true for every other parse result, since every parse result in the model is an integer (Infinity is outside the model, see the EcmaNumber.ParseInt line under "## Left out") |
| PageSize.First | example/js/GetPhotosPerformanceExample.tsx:53-59 | `first()` over the text alone; its meaning is given by PageSize.FirstCharacterized and PageSize.FirstNull |
| PageSize.FirstCharacterized | example/js/GetPhotosPerformanceExample.tsx:53-59 | `first()` is `n` if and only if the text reads as white space, a sign and digits denoting the non-negative `n`, then a tail the parse ignores |
| PageSize.FirstNull | example/js/GetPhotosPerformanceExample.tsx:53-59 | `first()` is `null` if and only if the parse is NaN or negative; equally, if and only if every decomposition of the text denotes a negative value |
| PageSize.FirstOfNumberToString | example/js/GetPhotosPerformanceExample.tsx:53-59 | a shown count typed back, with surrounding white space or a tail such as ".5", is accepted as that count |
| PageSize.FirstOfDefault | example/js/GetPhotosPerformanceExample.tsx:50 | the initial text "1000" gives the count 1000 |
| PageSize.FirstIgnoresTrailingText | example/js/GetPhotosPerformanceExample.tsx:53-59 | "12abc" gives 12 |
| PageSize.FirstIgnoresFraction | example/js/GetPhotosPerformanceExample.tsx:53-59 | "12.5" gives 12 |
| PageSize.FirstSkipsSpace | example/js/GetPhotosPerformanceExample.tsx:53-59 | " 7" gives 7 |
| PageSize.FirstAcceptsPlus | example/js/GetPhotosPerformanceExample.tsx:53-59 | "+5" gives 5 |
| PageSize.FirstRefusesNegative | example/js/GetPhotosPerformanceExample.tsx:55-56 | "-5" gives `null` |
| PageSize.FirstOfMinusZero | example/js/GetPhotosPerformanceExample.tsx:53-59 | "-0" is accepted as 0 |
| PageSize.FirstOfNoDigits | example/js/GetPhotosPerformanceExample.tsx:53-59 | "", "abc" and "- 5" give `null` |
| Include.IncludeValuesEnumerates | example/js/GetPhotosPerformanceExample.tsx:29-35 | the switches cover every field, each exactly once |
| Include.NameInjective | example/js/GetPhotosPerformanceExample.tsx:29-35 | distinct fields have distinct names |
| Include.Without | example/js/GetPhotosPerformanceExample.tsx:87-89 | the `filter` of the switch-off branch, never longer than its input; its meaning is given by Include.WithoutExcludes, Include.WithoutCounts and Include.WithoutKeepsOrder |
| Include.Toggle | example/js/GetPhotosPerformanceExample.tsx:86-93 | the new list of `handleIncludeChange`; its meaning is given by Include.ToggleOff and Include.ToggleOn |
| Include.WithoutExcludes | example/js/GetPhotosPerformanceExample.tsx:87-89 | the filtered list contains no occurrence of the tag |
| Include.WithoutCounts | example/js/GetPhotosPerformanceExample.tsx:87-89 | filtering keeps every other tag with its multiplicity, and shortens the list by the number of occurrences of the tag |
| Include.WithoutKeepsOrder | example/js/GetPhotosPerformanceExample.tsx:87-89 | the filtered list is a subsequence of the original: its entries sit at increasing positions of the original |
| Include.WithoutConcat | example/js/GetPhotosPerformanceExample.tsx:87-89 | filtering a concatenation filters each part |
| Include.WithoutAbsent | example/js/GetPhotosPerformanceExample.tsx:87-89 | filtering out a tag that is not present changes nothing |
| Include.ToggleOff | example/js/GetPhotosPerformanceExample.tsx:86-90 | switching off leaves no occurrence of the tag and keeps every other entry, in order and with its multiplicity |
| Include.ToggleOn | example/js/GetPhotosPerformanceExample.tsx:91-93 | switching on gives the old list followed by the tag, so the length grows by one and the tag's count by one |
| Include.ToggleOnDuplicates | example/js/GetPhotosPerformanceExample.tsx:91-93 | switching on a tag that is already present leaves a duplicate |
| Include.ToggleOnThenOff | example/js/GetPhotosPerformanceExample.tsx:86-93 | for an absent tag, switching on and then off gives back the original list |
| Include.ToggleOffAbsent | example/js/GetPhotosPerformanceExample.tsx:86-90 | switching off an absent tag is a no-op |
| Include.ToggleSelected | example/js/GetPhotosPerformanceExample.tsx:86-93 | as a set of selected fields, a toggle adds or removes exactly that tag |
| Include.SwitchKeepsNoDuplicates | example/js/GetPhotosPerformanceExample.tsx:112-116 | a switch shows whether its tag is selected and reports the opposite when flipped, so the list stays free of duplicates |
| PerformanceScreen.GetPhotosPerformanceExample.constructor | example/js/GetPhotosPerformanceExample.tsx:45-51 | initial state: not fetching, no time and no output, nothing selected, text "1000", which gives a count of 1000 |
| PerformanceScreen.GetPhotosPerformanceExample.Valid | example/js/GetPhotosPerformanceExample.tsx:47-79 | `output` and `timeTakenMillis` are both null or both set: the constructor and Resolve establish it, and every other method keeps it, since its frame excludes both fields |
| PerformanceScreen.GetPhotosPerformanceExample.SingleFlight | example/js/GetPhotosPerformanceExample.tsx:134 | at most one issued call is unsettled, and while one is, `fetchingPhotos` is set; the constructor establishes it and Press, Resolve and Reject keep it |
| PerformanceScreen.GetPhotosPerformanceExample.First | example/js/GetPhotosPerformanceExample.tsx:53-59 | `first()` reads only the `firstStr` field (its reads clause), and is PageSize.First of it |
| PerformanceScreen.GetPhotosPerformanceExample.ButtonEnabled | example/js/GetPhotosPerformanceExample.tsx:134 | the button is enabled exactly when `fetchingPhotos` is false; it reads only that field |
| PerformanceScreen.GetPhotosPerformanceExample.StartFetchingPhotos | example/js/GetPhotosPerformanceExample.tsx:61-70 | with no valid count, no call and no change; otherwise the call carries the count, the current selection and the start time, joins the pending set, and `fetchingPhotos` becomes true |
| PerformanceScreen.GetPhotosPerformanceExample.Resolve | example/js/GetPhotosPerformanceExample.tsx:71-79 | only an issued, unsettled call can resolve, and it leaves the pending set; the output becomes the page, the time becomes the end reading minus that call's own start reading, `fetchingPhotos` becomes false, and output and time stay paired |
| PerformanceScreen.GetPhotosPerformanceExample.Reject | example/js/GetPhotosPerformanceExample.tsx:71-79 | only an issued, unsettled call can fail, and it leaves the pending set; no visible field changes, so `fetchingPhotos` stays true and the old output and time remain |
| PerformanceScreen.GetPhotosPerformanceExample.Press | example/js/GetPhotosPerformanceExample.tsx:133-136 | a disabled button ignores the press; an enabled one starts a fetch; at most one call is outstanding |
| PerformanceScreen.GetPhotosPerformanceExample.HandleIncludeChange | example/js/GetPhotosPerformanceExample.tsx:82-95 | the selection becomes the toggled list |
| PerformanceScreen.GetPhotosPerformanceExample.ChangeFirstStr | example/js/GetPhotosPerformanceExample.tsx:129 | the text field takes the typed text, and the count is recomputed from it |
| PerformanceScreen.FetchOnce | example/js/GetPhotosPerformanceExample.tsx:45-80 | from the initial screen, a press and a resolved call request 1000 photos with no extra fields, then show the page and the elapsed time and enable the button again |
| PerformanceScreen.RejectedFetchDisablesButton | example/js/GetPhotosPerformanceExample.tsx:61-80 | from the initial screen, a press whose call fails leaves the button disabled, a second press issues nothing, and no output is shown |

## Where the model follows the code

- `first()` does a prefix parse. "12.5" and "12abc" give 12 and are accepted.
- The error text says "enter a positive number", but 0 and "-0" are accepted as 0.
- Switching on appends even when the tag is already in the list. Only the switches'
  own behaviour rules this out: a switch reports `true` only for an absent tag.
- A failed call leaves `fetchingPhotos` set, so the button stays disabled from then on. The
  earlier output and time are not cleared when a new fetch starts.
- The elapsed time is the difference of two wall-clock readings. It is not proved to be
  non-negative.

## Left out

- Rendering, layout and styles are left out. The one rendering kept is the `${first}` in the
  button title, as EcmaNumber.NumberToString. From the wiring the model keeps three facts:
  an edit of the text field replaces `firstStr` (ChangeFirstStr); the button runs
  `startFetchingPhotos` and is disabled while fetching (Press); each switch shows whether its
  tag is selected and reports the opposite when flipped (SwitchKeepsNoDuplicates).
- `CameraRoll.getPhotos` is a native call. Its result is the opaque type parameter `Page`.
  Its failure is `Reject`. The error then propagates out of the promise that
  `startFetchingPhotos` returns, which nobody awaits. The resulting unhandled-rejection warning
  is not modelled.
- `Date.now()` is the wall clock. Its readings are the `now` and `endTime` parameters.
- `Keyboard.dismiss()` is a UI side effect and is not modelled.
- `JSON.stringify` of the output is display formatting of an opaque value and is not modelled.
- React's asynchronous, batched `setState` and the scheduling around `await` are left out.
  Each step is one atomic transition. The model does not capture a press that lands before
  the re-render that disables the button.
- EcmaNumber.NumberToString: gives the exact decimal digits of a count. These match
  Number::toString only for counts up to 2^53.
  - Above 2^53, up to 10^21, Number::toString shows the fewest significant digits that still
    round to the double, padded with zeros. For example, 2^60 is shown as
    "1152921504606847000", while the model gives "1152921504606846976".
  - From 10^21 up the source uses exponent form ("1e+21"), and typing that back gives 1.
  - In the source, EcmaNumber.ParseIntOfNumberToString and PageSize.FirstOfNumberToString
    still hold below 10^21, since the shown digits parse back to the same double. They fail
    from 10^21 up. The model states them for every count.
  - EcmaNumber.DigitsValueOfNumberToString describes the screen only up to 2^53.
- EcmaNumber.ParseInt: works over mathematical integers. JavaScript's parse goes through
  double precision, so very long digit runs round or become Infinity, where `Number.isInteger`
  is false. "-0" gives -0 there and 0 here. Both values pass the validator as the count 0.
- EcmaNumber.IsStrWhiteSpace: characters are Unicode scalar values, while JavaScript strings
  are UTF-16 code units. Every white-space character and digit lies in the Basic Multilingual
  Plane, so the parse results agree.
