# Dinery client core, modelled in Dafny

Dinery is the web client of a dining wishlist for couples. The backend keeps
places, visits and notifications. This client shows them. This project models
the client's one piece of binary decoding and the small pieces of list and
string logic inside its UI components:

- **The PostGIS EWKB point decoder** (`parsePostGISPoint`). It takes the
  hexadecimal text of a PostGIS point: the Well-Known Binary layout of section
  8.2 of OGC Simple Features Access Part 1, plus the PostGIS SRID extension.
  It returns `{lat, lng}` or `null`. The steps are:
  1. strip one leading `\x`;
  2. fill a buffer of `floor(len/2)` bytes, two characters per byte, through
     `parseInt(_, 16)`;
  3. read the byte-order flag;
  4. read the 32-bit geometry type;
  5. skip the SRID when type bit `0x20000000` is set;
  6. read longitude, then latitude, as binary64 values;
  7. range-check the pair.

  Every out-of-range access throws, and the `catch` turns it into `null`.
  The decoder is a method over a `DataView` class holding an `array` of bytes
  (`WkbParser.ParsePostGISPoint`). It is proved equal to a pure function,
  `WkbParser.Decode`. The properties are lemmas about that function
  (`WkbProperties`). They are proved against an independent encoder
  (`WkbEncoding`) by round-trip lemmas.
- **The map's marker list** (`MapMarkers`): places mapped through the
  decoder and filtered, and the choice of map centre.
- **The tag picker's toggle** (`TagSelector`).
- **The bottom bar's visibility and its active item** (`BottomNav`).
- **The notification page** (`Notifications`): the "time ago" label, the
  optimistic mark-as-read update, the click routing and the icon choice. The
  page state is a class.
- **The check-in form** (`CheckIn`): a class with the form's state fields.
  Its methods are the event handlers: the parallel file and preview lists,
  the rating guard, the upload loop and the final state reset.

`JsArray` and `JsText` model the JavaScript built-ins these use:
`filter`, `map`, `startsWith`, `substring` and `parseInt(_, 16)`.

Modelling choices:

- **Hex pairs are converted exactly as the code converts them.** There is no
  hex-only precondition. `parseInt` skips leading white space, honours a sign
  and a `0x`, and reads the longest run of hex digits. No digit gives `NaN`.
  `setUint8` then stores `NaN` as 0 and other values modulo 256. So `zz`
  stores 0, `1g` stores 1 and `-1` stores 255.
- **A binary64 value is kept as its eight bytes, most significant first.**
  `getFloat64` only puts the bytes in that order, so decoding is exact with no
  float arithmetic. The range check `-90 <= lat <= 90 && -180 <= lng <= 180`
  is written on these bit patterns. It holds when the pattern with the sign
  bit cleared is at most that of 90.0 (`0x4056800000000000`) or 180.0
  (`0x4066800000000000`). This matches the numeric comparison because of how
  IEEE 754 orders its values: for values that are not NaN, a larger
  sign-cleared pattern means a larger absolute value. Every NaN pattern is
  larger than any finite one, so NaN fails, as it fails every JavaScript
  comparison. This ordering fact is stated here, not proved.

Behaviour the proofs bring out:

- Non-hexadecimal text is not rejected. It only fails when the buffer ends up
  too short. For example, 42 `z` characters decode to latitude and longitude
  +0.0 (`WkbProperties.NonHexTextDecodesToOrigin`).
- Only one `\x` is stripped. Text that starts with `\x\x` keeps its second
  `\x`, and that pair stores the byte 0.
- The geometry kind is never checked. Only the SRID bit of the type matters.
- `shouldHideNav` is the same as `pathname.startsWith("/wishlist/")`.
- The often-quoted sample text `0101000020E61000003D0AD7A3701D5C400000000000805DC0` is not a Jakarta point. Its longitude bytes are `0x405C1D70A3D70A3D` (112.46) and its latitude bytes `0xC05D800000000000` (-118.0), so the decoder returns `null` for it (`WkbProperties.SampleTextIsNull`). `WkbProperties.JakartaPointDecodes` uses the bytes of -6.2088, 106.8456.

## Model

| member | source | states |
|---|---|---|
| WkbParser.StripEscapePrefix | src/lib/wkbParser.ts:11 | text starting with backslash-x loses exactly those two characters; other text is unchanged |
| WkbParser.ToUint8 | src/lib/wkbParser.ts:17-18 | the byte stored for a parsed pair: NaN stores 0, a value in 0..255 is stored as it is, and a value in -256..-1 wraps to value + 256 (so `-1` stores 255) |
| WkbParser.HexToBytes | src/lib/wkbParser.ts:13-19 | the fill succeeds exactly for text of even length; the buffer then has half as many bytes as the text has characters, and byte k comes from characters 2k and 2k+1 |
| WkbParser.ByteAt | src/lib/wkbParser.ts:23 | a byte read succeeds exactly inside the buffer |
| WkbParser.U32At | src/lib/wkbParser.ts:26 | a 32-bit read succeeds exactly when four bytes are left; its value is the little-endian or big-endian sum of the four bytes as the flag says |
| WkbParser.F64At | src/lib/wkbParser.ts:45-46 | a binary64 read succeeds exactly when eight bytes are left; its bytes are those of the buffer, reversed when little-endian |
| WkbParser.HasSridFlag | src/lib/wkbParser.ts:41 | the bitwise test of 0x20000000 is bit 29 of the type: the type modulo 2^30 is at least 2^29 |
| WkbParser.InRange | src/lib/wkbParser.ts:49 | a pair that passes the check has no infinite and no NaN coordinate |
| WkbParser.DecodeBuffer | src/lib/wkbParser.ts:21-53 | fewer than 21 bytes give null, and every decoded point passes the range check |
| WkbParser.Decode | src/lib/wkbParser.ts:6-59 | a falsy or non-string argument and any odd-length text give null, and every decoded point passes the range check |
| WkbParser.CoordinateOffset | src/lib/wkbParser.ts:39-43 | coordinates start at byte 9 exactly when the type has the SRID flag, and at byte 5 otherwise |
| WkbParser.DataView.constructor | src/lib/wkbParser.ts:14-15 | the new buffer is fresh and zero-filled, with the requested number of bytes |
| WkbParser.DataView.SetUint8 | src/lib/wkbParser.ts:18 | a store succeeds exactly when the index is inside the buffer; it then changes only that byte, to the converted value, and otherwise changes nothing |
| WkbParser.DataView.GetUint8 | src/lib/wkbParser.ts:23 | the byte at the index, or failure past the end |
| WkbParser.DataView.GetUint32 | src/lib/wkbParser.ts:26 | the byte arithmetic over four array cells equals the 32-bit read of the buffer in the given byte order, failing past the end |
| WkbParser.DataView.GetFloat64 | src/lib/wkbParser.ts:45-46 | the loop collects the eight bytes in canonical order, which equals the binary64 read of the buffer, failing past the end |
| WkbParser.StorePair | src/lib/wkbParser.ts:17-18 | one round of the loop stores byte i/2 as the pair conversion, fails exactly past the end, and leaves every other byte alone |
| WkbParser.Fill | src/lib/wkbParser.ts:16-19 | the fill loop succeeds exactly for text of even length, and then every byte k is the conversion of characters 2k and 2k+1 |
| WkbParser.FillView | src/lib/wkbParser.ts:13-19 | the fill loop succeeds exactly when the cleaned text has even length, and then leaves byte k equal to the conversion of characters 2k and 2k+1 |
| WkbParser.ReadPoint | src/lib/wkbParser.ts:21-53 | the reads of byte order, type, longitude and latitude plus the range check compute the decoding function of the buffer's bytes |
| WkbParser.ParsePostGISPoint | src/lib/wkbParser.ts:6-59 | the whole decoder, with every throw caught as null, returns exactly the decoding function of its argument |
| WkbProperties.FalsyOrNonStringIsNull | src/lib/wkbParser.ts:7 | null, undefined, the empty string and every non-string give null |
| WkbProperties.EscapePrefixIgnored | src/lib/wkbParser.ts:11 | text with a leading backslash-x decodes like the text without it, when no second backslash-x follows |
| WkbProperties.EscapePrefixOnce | src/lib/wkbParser.ts:11 | only one prefix is removed, and text not starting with it is untouched |
| WkbProperties.OddLengthIsNull | src/lib/wkbParser.ts:14-19 | every odd-length text gives null, because the last store lands past the floor(len/2)-byte buffer |
| WkbProperties.HexPairByte | src/lib/wkbParser.ts:17-18 | when characters 2k and 2k+1 are hex digits, byte k is 16 times the first digit plus the second |
| WkbProperties.NonHexPairByte | src/lib/wkbParser.ts:17-18 | when neither character 2k nor 2k+1 is a hex digit, byte k is 0 |
| WkbProperties.NonHexTextDecodesToOrigin | src/lib/wkbParser.ts:6-53 | even-length text of at least 42 characters with no hex digit and no leading backslash-x is not rejected: it decodes to latitude and longitude +0.0 |
| WkbProperties.EscapedShortTextIsNull | src/lib/wkbParser.ts:11-46 | backslash-x followed by any 40 characters gives null, because stripping the prefix leaves only 20 bytes |
| WkbProperties.NonHexFillsZeros | src/lib/wkbParser.ts:16-19 | even-length text with no hex digit fills a buffer of zeros |
| WkbProperties.ZeroBufferIsOrigin | src/lib/wkbParser.ts:21-53 | 21 or more zero bytes read as big-endian type 0, so offset 5, and a point at +0.0, +0.0 that passes the range check |
| WkbProperties.OtherOrderBytesAreBigEndian | src/lib/wkbParser.ts:23 | byte 0 selects little-endian only when it is 1; every other value decodes like 0, big-endian |
| WkbProperties.SridFlagBit | src/lib/wkbParser.ts:41 | the SRID flag is bit 5 of the type's most significant byte |
| WkbProperties.SridFlagLocation | src/lib/wkbParser.ts:26-41 | in the buffer, the flag is bit 5 of byte 4 for little-endian and of byte 1 for big-endian |
| WkbProperties.SridBytesIgnored | src/lib/wkbParser.ts:39-43 | when the flag is set, replacing bytes 5 to 8 (the SRID) never changes the result |
| WkbProperties.OnlySridFlagOfTypeMatters | src/lib/wkbParser.ts:26-43 | replacing the type with any type that has the same SRID flag never changes the result, so the geometry kind is not checked |
| WkbProperties.ShortBufferIsNull | src/lib/wkbParser.ts:45-46 | fewer than 21 bytes, or fewer than 25 with the SRID flag, give null |
| WkbProperties.DecodedCoordinates | src/lib/wkbParser.ts:45-53 | with enough bytes, the result is non-null exactly when the pair passes the inclusive range check; it is then latitude from offset+8 and longitude from offset |
| WkbProperties.SuccessIsInRange | src/lib/wkbParser.ts:49-51 | any non-null result had enough bytes and passes the range check |
| WkbProperties.TrailingBytesIgnored | src/lib/wkbParser.ts:45-46 | bytes after offset+16 never change the result |
| WkbProperties.EncodedHeader | src/lib/wkbParser.ts:23-26 | the first five bytes of an encoded point read back as its byte order and its type |
| WkbProperties.EncodedFields | src/lib/wkbParser.ts:39-46 | an encoded point has exactly offset+16 bytes, and its two coordinate fields read back as its longitude and latitude |
| WkbProperties.EncodeDecode | src/lib/wkbParser.ts:21-53 | decoding an encoded point in either byte order gives the point back, or null when it is out of range, whatever the SRID and the other type bits |
| WkbProperties.BigEndianMatchesLittleEndian | src/lib/wkbParser.ts:23-46 | the big-endian encoding of a point decodes exactly like its little-endian encoding |
| WkbProperties.TextRoundTrip | src/lib/wkbParser.ts:6-59 | the decoder applied to the upper-case hex text of an encoded point, with or without backslash-x, gives the point or null by the range check |
| WkbProperties.JakartaPointDecodes | src/lib/wkbParser.ts:6-59 | the SRID-4326 point at -6.2088, 106.8456 decodes to itself |
| WkbProperties.SampleTextIsNull | src/lib/wkbParser.ts:6-59 | the text `0101000020E61000003D0AD7A3701D5C400000000000805DC0` (longitude 112.46, latitude -118.0) gives null, since its latitude is out of range |
| WkbProperties.LatitudeOutOfRangeIsNull | src/lib/wkbParser.ts:49-53 | latitude 200.0 parses without error and still gives null |
| WkbEncoding.U32RoundTrip | src/lib/wkbParser.ts:26 | the 32-bit read of a value's four bytes gives the value back |
| WkbEncoding.HexRoundTrip | src/lib/wkbParser.ts:13-19 | the fill of the hex text of any bytes recovers those bytes |
| JsText.HexPairValue | src/lib/wkbParser.ts:17 | parseInt of two hex digits is high digit times 16 plus low digit |
| JsText.ParseIntHex | src/lib/wkbParser.ts:17 | two characters parse to NaN or to a value above -16 and below 256 |
| JsText.Substring | src/lib/wkbParser.ts:17 | the result is never longer than the text, and for in-range ends it is the slice between them |
| JsText.StartsWith | src/lib/wkbParser.ts:11 | the text starts with the prefix exactly when it is the prefix followed by the rest of the text |
| JsText.ParseIntHexNoDigit | src/lib/wkbParser.ts:17 | text without any hex digit parses to NaN |
| JsText.ParseIntHexPartialPair | src/lib/wkbParser.ts:17 | a hex digit followed by a non-digit parses to that digit, except `0x` and `0X`, which parse to NaN |
| JsText.ParseIntHexSigned | src/lib/wkbParser.ts:17 | a minus or plus sign before a hex digit is honoured |
| JsText.ParseIntHexLeadingSpace | src/lib/wkbParser.ts:17 | any white-space character before a hex digit is skipped |
| MapMarkers.NotAnArrayHasNoMarkers | src/components/MapComponent.tsx:59 | a places value that is not an array gives an empty list |
| MapMarkers.Annotate | src/components/MapComponent.tsx:61-76 | the mapped entry is a marker exactly when the location decodes; a marker carries the decoded coordinates, and the visited icon and status exactly when the place has visits |
| MapMarkers.PlacesWithCoords | src/components/MapComponent.tsx:58-77 | a non-array gives no entries; otherwise no more entries than places, and only markers |
| MapMarkers.KeepsDecodablePlacesInOrder | src/components/MapComponent.tsx:61-77 | map-then-filter equals keeping, in order, exactly the places whose location decodes, then annotating them |
| MapMarkers.MarkerContents | src/components/MapComponent.tsx:61-77 | no more markers than places; a place gets a marker exactly when it decodes; each marker carries its decoded coordinates; it has the visited status and icon exactly when it has visits, otherwise Wishlist |
| MapMarkers.DecodablePlaceHasMarker | src/components/MapComponent.tsx:61-77 | every place whose location decodes has its marker in the list |
| MapMarkers.MarkerIsAnnotatedPlace | src/components/MapComponent.tsx:61-77 | every marker in the list is the annotation of one of the places whose location decodes |
| MapMarkers.DefaultCenter | src/components/MapComponent.tsx:27-29 | the centre is the user's position when known, otherwise the fixed Jakarta point |
| MapMarkers.DefaultCenterInRange | src/components/MapComponent.tsx:27-29 | the fixed centre satisfies the decoder's range check |
| JsArray.FilterIndexOther | src/components/modals/CheckInModal.tsx:49-50 | filtering by `i !== index` deletes exactly position index, and nothing when index is out of range |
| TagSelector.Without | src/components/ui/TagSelector.tsx:16 | the filtered list lacks the id and keeps every other id's membership |
| TagSelector.ToggleTag | src/components/ui/TagSelector.tsx:14-20 | the id's membership is flipped and every other id's membership is kept |
| TagSelector.IsSelected | src/components/ui/TagSelector.tsx:31 | a tag is highlighted exactly when some position of the selected list holds its id |
| TagSelector.WithoutCounts | src/components/ui/TagSelector.tsx:16 | the filter deletes every occurrence of the id and keeps every other element's count |
| TagSelector.ToggleSelected | src/components/ui/TagSelector.tsx:15-16 | toggling a selected id removes all its occurrences and nothing else |
| TagSelector.ToggleUnselected | src/components/ui/TagSelector.tsx:17-18 | toggling an unselected id appends it at the end, after which it is selected |
| TagSelector.ToggleKeepsOthersInOrder | src/components/ui/TagSelector.tsx:14-20 | apart from the toggled id, the list after a toggle is the list before, in the same order |
| TagSelector.ToggleTwiceRestores | src/components/ui/TagSelector.tsx:14-20 | toggling an unselected id twice gives back the original list |
| TagSelector.ToggleFlipsSelection | src/components/ui/TagSelector.tsx:14-31 | after a click, `isSelected` flips for the clicked tag and stays the same for every other tag |
| BottomNav.Render | src/components/BottomNav.tsx:20-50 | nothing is rendered exactly when the nav is hidden; otherwise the four table items, in order, each active exactly when the path starts with its link |
| BottomNav.ShouldHideNav | src/components/BottomNav.tsx:15-17 | the nav is hidden exactly when the path starts with "/wishlist/"; the other two tests add nothing |
| BottomNav.IsActive | src/components/BottomNav.tsx:33 | an item is active exactly when the path agrees with its link on every character of the link |
| BottomNav.WishlistShownAddHidden | src/components/BottomNav.tsx:15-20 | "/wishlist" shows the nav and "/wishlist/add" hides it |
| BottomNav.PrefixesNest | src/components/BottomNav.tsx:33 | of two prefixes of one path, the shorter is a prefix of the longer |
| BottomNav.HrefsNotPrefixes | src/components/BottomNav.tsx:22-27 | no link in the table is a prefix of another |
| BottomNav.AtMostOneActive | src/components/BottomNav.tsx:22-33 | for any path, at most one item is active |
| BottomNav.ItemOrder | src/components/BottomNav.tsx:22-27 | the items are Home, Wishlist, History, Profile, in that order |
| Notifications.FormatTimeAgo | src/app/notifications/page.tsx:18-31 | "Baru saja" exactly for differences under 60 s, negative ones included; minute, hour and day counts within 1..59, 1..23 and 1..6; the date exactly from 7 days on |
| Notifications.TimeAgoBuckets | src/app/notifications/page.tsx:24-30 | each shown count is the number of whole minutes, hours or days elapsed |
| Notifications.MarkRead | src/app/notifications/page.tsx:51-53 | `is_read` becomes true on every entry with the id; no other field and no other entry changes, and the length and order are kept |
| Notifications.MarkReadIdempotent | src/app/notifications/page.tsx:51-53 | applying the update twice equals applying it once |
| Notifications.RouteFor | src/app/notifications/page.tsx:66-74 | a click navigates exactly for "wishlist" and "journal" notifications with a non-empty related id, and then to "/wishlist/" plus that id |
| Notifications.RouteHidesBottomNav | src/app/notifications/page.tsx:66-70 | every page a click navigates to is one where the bottom bar is hidden |
| Notifications.IconFor | src/app/notifications/page.tsx:78-87 | "wishlist" and "journal" each get their own icon; every other type gets the default |
| Notifications.NotificationsPage.constructor | src/app/notifications/page.tsx:14-15 | the page starts with an empty list, loading |
| Notifications.NotificationsPage.FinishLoading | src/app/notifications/page.tsx:35-44 | after the fetch the list is `data` or empty, or unchanged on failure, and loading is over in every case |
| Notifications.NotificationsPage.HandleNotificationClick | src/app/notifications/page.tsx:49-75 | whatever the mark-read call does, the list becomes the marked list and is not rolled back, and the navigation is the route of the notification |
| CheckIn.CollectUrlsSpec | src/components/modals/CheckInModal.tsx:63-90 | the uploaded URLs exist exactly when no upload threw; they are then the truthy URLs in file order, never more than the files |
| CheckIn.CollectUrls | src/components/modals/CheckInModal.tsx:63-90 | when the loop completes it keeps at most one URL per reply, and every kept URL is non-empty |
| CheckIn.CollectUrlsCompletes | src/components/modals/CheckInModal.tsx:70-90 | the loop completes exactly when no upload threw |
| CheckIn.CollectUrlsKeepsTruthy | src/components/modals/CheckInModal.tsx:70-90 | a completed loop keeps exactly the truthy URLs, in file order |
| CheckIn.CollectUrlsThrowSticks | src/components/modals/CheckInModal.tsx:70-90 | once an upload has thrown, the whole loop has failed |
| CheckIn.CheckInForm.constructor | src/components/modals/CheckInModal.tsx:21-32 | rating 0, empty review, today's date, no repeat flag, no files, no previews, not submitting, no progress text |
| CheckIn.CheckInForm.SelectStar | src/components/modals/CheckInModal.tsx:143-147 | a star button sets the rating to its number, 1 to 5, and changes no other field |
| CheckIn.CheckInForm.SetReview | src/components/modals/CheckInModal.tsx:167 | the review becomes the typed text and nothing else changes |
| CheckIn.CheckInForm.SetVisitDate | src/components/modals/CheckInModal.tsx:180 | the date becomes the picked date and nothing else changes |
| CheckIn.CheckInForm.SetRepeat | src/components/modals/CheckInModal.tsx:189 | the repeat flag becomes the checkbox value and nothing else changes |
| CheckIn.CheckInForm.HandleFileSelect | src/components/modals/CheckInModal.tsx:37-46 | the chosen files and their previews are appended at the end, in their order, so both lists stay the same length |
| CheckIn.CheckInForm.RemoveFile | src/components/modals/CheckInModal.tsx:48-51 | exactly position index is deleted from both lists, the rest keep their order, and an out-of-range index changes nothing |
| CheckIn.CheckInForm.HandleSubmit | src/components/modals/CheckInModal.tsx:54-123 | with rating 0 nothing is sent and the submitting state is untouched; otherwise the visit is saved with the collected URLs exactly when no upload threw and the post returned without throwing (a 401 redirect returns too, so it is reported as saved), and in every case submitting ends false with empty progress text |

## Left out

- Floating point: the doubles are handled as bit patterns. That the range check on patterns equals the numeric comparison is the IEEE 754 ordering fact above, stated and not proved.
- Strings are sequences of Unicode scalar values. JavaScript counts UTF-16 code units, so for characters outside the Basic Multilingual Plane, lengths and `substring` positions differ. Unpaired surrogates cannot be represented.
- `console.error` in the decoder's `catch` and in the notification and check-in handlers: logging only.
- Leaflet: icons, markers, tiles, popups and `MapUpdater` are a rendering library. Icons are two constants.
- Clock and locale: `formatTimeAgo` takes the millisecond difference. `toLocaleDateString` is the `LocaleDate` label, and the minute/hour/day text templates are the labels with their count. An unparsable date (NaN difference) is not modelled. The form's default date is a constructor argument.
- Network and storage: `fetchAPI`, its 401 redirect, the token in `localStorage`, the upload `fetch` and `FormData` are not modelled. Their results are inputs: a fetch result, a list of upload replies, and whether the visit post and the mark-read call returned without throwing. `fetchAPI` answers a 401 by redirecting and returning nothing, so a rejected visit post still counts as returned and `handleSubmit` reports it as saved.
- `URL.createObjectURL` is outside the model. The previews are an input list, one URL per chosen file.
- `alert`, `onClose`, `router.push` and `router.refresh` are represented by a return value: an outcome or a navigation target.
- CheckIn.CheckInForm.HandleSubmit: describes the state after the handler has finished. The intermediate `isSubmitting = true` and progress texts, visible while uploads are awaited, are not part of the contract.
- The JSX markup, including the empty-tag message of the tag picker and the class names chosen from `isSelected` and `isActive`, is presentation.
- An element of `places` that is `null` or `undefined` makes `p.location` throw in `MapComponent`. That throw happens outside the decoder's `try`, and `Place` cannot represent such an element.
- An element of `places` that is a number, string or boolean reads `location` as `undefined`; the decoder's `typeof` guard then returns `null`, so the element is silently dropped like a place without a location. `Place` cannot represent such elements either.
- `MapComponent`'s `p.visits.length` on a `visits` value that is neither absent nor an array is not modelled.
