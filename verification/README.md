# EXIF GPS to KML, modelled in Dafny

`geolocate.php` walks a directory tree, reads the GPS tags of every JPEG it
finds, converts the degrees/minutes/seconds rationals to signed decimal
degrees and writes a KML document with one placemark per located photo.
This project models the pure logic of that script and proves properties
of it:

- `eval_fraction`, the lenient "numerator/denominator" reader (module `Fraction`);
- `convert_DMS`, the positional weighting 1, 1/60, 1/3600 of the three
  RATIONAL components of the GPSLatitude/GPSLongitude tags of section 4.6.6
  of Exif 2.3 (module `Dms`);
- the per-file part of `traverse_directory`: the JPEG name filter, the
  requirement that both coordinate tags be present, and the "S"/"W" sign
  correction (module `Gps`);
- the depth-first traversal itself, over an in-memory directory tree (module `Traversal`);
- the placemark fields (title, description, coordinate text) and the
  default output file name (module `Kml`);
- an end-to-end scenario on a small tree with one tagged photo (module
  `Scenario`).

Supporting modules: `Options` (the optional value), `Strings` (PHP's
`str_replace` for one search string, prefix tests, a split on one
character), `Numerals` (digit strings, and the number PHP arithmetic reads
from the start of a string) and `Values` (a PHP value as the script
handles it: a number, a passed-through string, or the unspecified result
of arithmetic that has no value).

Numbers are Dafny `real`s, which are exact rationals. The coordinate
longitude-first order matches the `kml:coordinates` tuple order of OGC KML
2.2 (OGC 07-147r2).

Design choices that follow the code where a plain reading might differ:

- `eval_fraction` searches for the FIRST `digits/digits` anywhere in the
  token. Characters around it, including a minus sign and the whole part
  of a mixed number such as "1 1/2", are ignored. A denominator spelled
  with zeros only ("0", "00") compares equal to 0, and then the numerator
  alone is returned.
- `(int)` of a digit string too large for a 64-bit integer is read as a
  double and capped at PHP_INT_MAX; a digit run of at least 2^1024 - 2^970
  is an infinite double and casts to 0. Such a denominator compares
  unequal to 0 on line 82 and then divides by zero on line 83; that
  division has the unspecified value `Indeterminate`.
- A string that `eval_fraction` passes through takes part in arithmetic
  as the number it starts with (leading white space, a sign, digits with
  an optional point and exponent), as PHP reads numeric strings: "30" / 60
  is 0.5. A string that starts with no number gives `Indeterminate`.
- `convert_DMS` of a one-element array performs no arithmetic. A
  passed-through string therefore comes back unchanged, and it still
  stands for its leading number.
- The name filter `/\.jpe?g$/i` has no D modifier, so `$` also matches before
  a final newline: a name like "a.jpg" followed by a newline passes.
- The title removes EVERY occurrence of the root string, not only the
  leading one, before turning each `\` into a space. `TitleOfRelative` states
  when this equals "strip the prefix".
- The description lowers `.JPG` only, as the script's own comment on line
  167 ("google earth doesn't like file extensions in caps?") and the
  literal on line 168 have it. `.Jpg`, `.JPEG` and other spellings are
  left as they are.

## Model

| member | source | states |
|---|---|---|
| `Numerals.DigitRun` | geolocate.php:81 | the greedy `\d+` at an index takes exactly the maximal run of ASCII digits there |
| `Numerals.Decimal` | geolocate.php:80-85 | the decimal spelling of an integer reads back as that integer (partner of `DigitsValue`, used by every round trip below) |
| `Numerals.LeadingNumber` | geolocate.php:96-98 | the number arithmetic reads from a string; its partner lemmas `LeadingDecimal`, `LeadingNegative`, `LeadingFixedPoint`, `LeadingDigits`, `LeadingSpaceExponent` and `LeadingSignedFraction` pin it down on the spellings the EXIF reader produces |
| `Numerals.LeadingDecimal` | geolocate.php:96-98 | the decimal spelling of n takes part in arithmetic as n |
| `Numerals.LeadingDigits` | geolocate.php:96-98 | digits followed by text that cannot continue a number read as the digits' value; the trailing text is ignored |
| `Numerals.LeadingNegative` | geolocate.php:136-137 | a minus sign before digits reads as the negated value |
| `Numerals.LeadingFixedPoint` | geolocate.php:96-98 | a decimal fraction "w.f" reads as w + f/10^len(f) |
| `Numerals.LeadingSpaceExponent` | geolocate.php:96-98 | leading white space is skipped and an exponent scales the digits: " 1e2" reads as 100 |
| `Numerals.LeadingSignedFraction` | geolocate.php:136-137 | a sign may precede the point directly: "-.5" reads as -0.5 |
| `Fraction.IntCast` | geolocate.php:82-83 | `(int)` of a digit string: exact up to PHP_INT_MAX, capped there for larger values a double can hold, 0 from 2^1024 - 2^970 on; its partners are `QuotientOfDigits` and `FractionOfDigits` (in range), `ZeroDenominator` and `DenominatorOverflow` (the infinite double) |
| `Fraction.QuotientOfDigits` | geolocate.php:82-83 | for values within PHP's integer range and a non-zero denominator, lines 82-83 give the exact quotient of the two digit strings' values |
| `Fraction.FractionOfDigits` | geolocate.php:80-85 | any two digit strings in range joined by '/', leading zeros included, read as the quotient of their values: "010/002" is 5 |
| `Fraction.MatchAt` | geolocate.php:81 | `(\d+)/(\d+)` matches at an index; `EvalFractionAt` and `NoDigitsNoMatch` say at which indices it does and does not |
| `Fraction.GroupsAt` | geolocate.php:81 | the two capture groups of a match are non-empty digit strings; `GroupsAtIs` gives them as the slices of the token |
| `Fraction.FirstMatch` | geolocate.php:81 | `preg_match` reports the leftmost index where `(\d+)/(\d+)` matches, and none when it matches nowhere |
| `Fraction.Quotient` | geolocate.php:82-83 | lines 82-83 on the two groups have no value exactly when the denominator is too large for a double; otherwise the value lies between 0 and PHP_INT_MAX (partners: `ZeroDenominator`, `FractionRoundTrip`, `DenominatorOverflow`) |
| `Fraction.EvalFraction` | geolocate.php:80-85 | a passed-through result is the input itself; a numeric result lies between 0 and PHP_INT_MAX (the pattern has no sign) |
| `Fraction.PassThroughIffNoMatch` | geolocate.php:81-84 | the input comes back unchanged exactly when `digits/digits` occurs nowhere in it; the result has no value exactly when the first match's denominator is too large for a double; otherwise it is a number |
| `Fraction.EvalFractionOf` | geolocate.php:81-83 | whatever comes before the first match (text, a sign, digits that no '/' follows) and anything not starting with a digit after it are ignored; the value is that of lines 82-83 on the two digit runs |
| `Fraction.MixedNumber` | geolocate.php:81 | a mixed number "w n/d" reads as n/d: the whole part is skipped |
| `Fraction.FractionRoundTrip` | geolocate.php:80-85 | the decimal spellings of n and d joined by '/' read back as exactly n/d, or n when d is 0 |
| `Fraction.ZeroDenominator` | geolocate.php:82 | a denominator of any number of zeros gives the integer numerator and no division |
| `Fraction.DenominatorOverflow` | geolocate.php:82-83 | a denominator of at least 2^1024 - 2^970 compares unequal to 0 yet casts to 0, and the division has no value |
| `Fraction.SignIgnored` | geolocate.php:81 | a leading minus sign is dropped: "-a/b" reads the same as "a/b" |
| `Fraction.NoSlashPassesThrough` | geolocate.php:84 | a token without '/' is returned unchanged |
| `Values.AsNumber` | geolocate.php:96-98 | the number PHP arithmetic reads from an operand of `+` and `/` (and of `*= -1` on lines 136-137): a number is itself, a string is read for its leading number, an unspecified value stands for none; its partners are `NonNumericText` and `DecimalTextArithmetic` and, through `LeadingNumber`, `Numerals.LeadingDecimal`, `LeadingDigits`, `LeadingNegative`, `LeadingFixedPoint`, `LeadingSpaceExponent` and `LeadingSignedFraction` |
| `Values.Add` | geolocate.php:96-98 | PHP `+` on the values the script handles; its partners are `AddWeighted`, `LoopIsWeightedSum` (the sum of numeric components) and `NonNumericText` (no value for a string with no number) |
| `Dms.AddWeighted` | geolocate.php:96-98 | adding a weighted term to a value that stands for a number gives the number plus the term divided by the weight |
| `Values.DivBy` | geolocate.php:96-98 | dividing by the constant has a value exactly when the dividend stands for a number, and its product with the divisor is that number |
| `Values.Negate` | geolocate.php:136-137 | `*= -1` has a value exactly when the operand stands for a number, and it is that number's additive inverse |
| `Values.DecimalTextArithmetic` | geolocate.php:96-98 | a passed-through integer spelling is divided and negated as the integer it spells |
| `Values.NonNumericText` | geolocate.php:96-98 | a string with no digits has no number, and adding to it or negating it has no value |
| `Dms.Step` | geolocate.php:93-99 | one loop iteration; `LoopIsWeightedSum` and `AccumulateTail` state what the iterations add up to |
| `Dms.Accumulate` | geolocate.php:92-100 | the loop from an index on; `AccumulateTail` and `AccumulatePrefix` state that only the first three components count |
| `Dms.Loop` | geolocate.php:91-103 | the loop on already evaluated components, 0 for an empty array; its partner `LoopIsWeightedSum` states that it is the weighted sum of the components present |
| `Dms.Evaluated` | geolocate.php:94-98 | `eval_fraction` applied to each component, keeping their number and order; `EvaluatedThree` states it for three components, and `ConvertDmsIgnoresTail` that evaluating components beyond index 2, which the script never reads, changes nothing |
| `Dms.ConvertDms` | geolocate.php:89-104 | `convert_DMS`; its partner is the reference `DmsSum`, connected by `ConvertDmsIsWeightedSum` |
| `Dms.LoopIsWeightedSum` | geolocate.php:91-103 | on evaluated components that stand for numbers, the loop's result stands for degrees + minutes/60 + seconds/3600 over the components present, and 0 for none; it is that number itself unless there is exactly one component |
| `Dms.ConvertDmsIsWeightedSum` | geolocate.php:89-104 | the same for the tag's strings: the result equals the reference sum, and is a number unless the array has one element |
| `Dms.ConvertDmsIgnoresTail` | geolocate.php:92-100 | components at index 3 or above never change the result |
| `Dms.ConvertDmsSingle` | geolocate.php:91-101 | a one-element array returns the evaluated element as it is, a passed-through string included |
| `Dms.ConvertDmsNonNumericPoisons` | geolocate.php:94-98 | with two or more components, a component among the first three that stands for no number makes the result unspecified |
| `Dms.DmsRoundTrip` | geolocate.php:80-104 | three RATIONAL components spelled "n/d" by the EXIF reader convert to exactly dn/dd + (mn/md)/60 + (sn/sd)/3600 |
| `Dms.ThreeComponents` | geolocate.php:89-104 | three components whose evaluated values stand for x, y and z convert to the number x + y/60 + z/3600 |
| `Dms.IntegerPassesThrough` | geolocate.php:84 | an integer spelling passes through the fraction parser unchanged and stands for the integer |
| `Dms.IntegerComponents` | geolocate.php:89-104 | three integer components convert to d + m/60 + s/3600 |
| `Gps.IsJpegName` | geolocate.php:127 | `/\.jpe?g$/i` without the D modifier; `JpgSuffix` and `JpegSuffix` state that any name ending in `.jpg` or `.jpeg`, in any case, passes, and `JpegNamesAccepted` and `JpegNamesRejected` list names it accepts and rejects |
| `Gps.JpgSuffix` | geolocate.php:127 | a name whose last four characters spell `.jpg` in any mix of cases passes the filter |
| `Gps.JpegSuffix` | geolocate.php:127 | a name whose last five characters spell `.jpeg` in any mix of cases passes the filter |
| `Gps.Hemisphere` | geolocate.php:136-137 | the sign correction; its partner is `HemisphereSign` |
| `Gps.Signed` | geolocate.php:135-137 | reference definition of the decimal-degree convention, "S and W are negative"; `CorrectedCoordinate` and `AcceptedCoordinates` connect the script's sign correction to it |
| `Gps.HemisphereSign` | geolocate.php:136-137 | sign correction keeps the magnitude; a non-zero value changes, and a positive one becomes negative, exactly when the reference is the negative letter, compared case-sensitively; a missing reference changes nothing |
| `Gps.Accept` | geolocate.php:127-142 | a file yields a record exactly when its name ends in `.jpg`/`.jpeg` (any case), the GPS read succeeds and both coordinate tags are set; the record's path is the file path |
| `Gps.CorrectedCoordinate` | geolocate.php:131-137 | for a numeric tag, the corrected coordinate stands for the DMS sum, negated exactly for the negative letter |
| `Gps.AcceptedCoordinates` | geolocate.php:131-141 | for numeric tags, an accepted file's latitude stands for the DMS sum negated exactly for "S" and its longitude for the DMS sum negated exactly for "W"; each is a number unless its tag has one component |
| `Gps.JpegNamesAccepted` | geolocate.php:127 | "a.jpg", "a.JPG", "a.Jpeg", ".jpg" and "a.jpg" followed by a newline pass the filter |
| `Gps.JpegNamesRejected` | geolocate.php:127 | "photo.png", "a.jpgx", "a.jpe" and "ajpg" do not pass the filter |
| `Traversal.Join` | geolocate.php:118 | the path `dir\name` of a listed entry; `WithinJoin` states that whatever lies at or below it lies below `dir`, and `BasenameOfJoin` that its base name is `name` |
| `Traversal.IsDotEntry` | geolocate.php:117 | the names `.` and `..` that the walk skips; its partner `DotEntriesSkipped` states that such an entry contributes nothing, and `CandidatesWithin` that no file found bears such a name |
| `Traversal.Candidates` | geolocate.php:111-151 | the walker; `ListingAppend`, `SubdirectorySplice`, `DotEntriesSkipped` and `CandidatesWithin` state its order and contents |
| `Traversal.ExtractAll` | geolocate.php:126-143 | the per-file check over the candidates; `ExtractAllAppend` and `ExtractAllMembership` state what it keeps |
| `Traversal.ExtractAllAppend` | geolocate.php:124 | the records of two candidate runs are concatenated in order, as `array_merge` does |
| `Traversal.ExtractAllMembership` | geolocate.php:126-143 | a record is produced exactly for the candidates the per-file check accepts, never more records than candidates |
| `Traversal.ListingAppend` | geolocate.php:115-147 | the files found in a concatenated listing are those of the first part followed by those of the second |
| `Traversal.SubdirectorySplice` | geolocate.php:119-124 | a subdirectory's records appear exactly where it is listed, between the records of the entries before and after it |
| `Traversal.DotEntriesSkipped` | geolocate.php:117 | the "." and ".." entries contribute nothing, whatever they point at |
| `Traversal.CandidatesWithin` | geolocate.php:114-119 | every file found was listed in the root or a directory below it, and is never a pseudo-entry |
| `Traversal.RecordsUnderRoot` | geolocate.php:118-141 | every record's path starts with the root followed by '\' |
| `Traversal.TraverseDirectory` | geolocate.php:111-151 | the script's single interleaved loop produces exactly the walker's files filtered by the per-file check, in depth-first listing order; an unopenable directory yields nothing |
| `Strings.ReplaceAll` | geolocate.php:163-168 | `str_replace` with a replacement as long as the needle keeps the length |
| `Strings.ReplaceAllAbsent` | geolocate.php:163-168 | replacing a needle that does not occur leaves the subject unchanged |
| `Strings.ReplaceCharPointwise` | geolocate.php:164 | replacing one character by another changes exactly the positions holding it |
| `Kml.Title` | geolocate.php:163-164 | the placemark name; its partners are `TitleOfRelative` and `TitleEmptyRoot` |
| `Kml.TitleOfRelative` | geolocate.php:163-164 | for a file `root\rel` whose `\rel` part does not contain the root again, the title is a space followed by rel with each '\' turned into a space |
| `Kml.TitleEmptyRoot` | geolocate.php:163-164 | an empty root removes nothing; only the '\' become spaces |
| `Kml.LowerJpg` | geolocate.php:168 | `str_replace(".JPG", ".jpg", ...)`; its partners are `LowerJpgPointwise`, `LowerJpgComplete` and `LowerJpgOnlyUpperJpg` |
| `Kml.LowerJpgPointwise` | geolocate.php:168 | the rewritten path has the same length; inside each `.JPG` the letters are lowered and every other character is kept |
| `Kml.LowerJpgComplete` | geolocate.php:168 | no `.JPG` remains in the rewritten path |
| `Kml.LowerJpgOnlyUpperJpg` | geolocate.php:168 | a path without `.JPG` (with `.Jpg` or `.JPEG`, say) is left unchanged |
| `Kml.Description` | geolocate.php:168 | the description text; its partner is `DescriptionParts` |
| `Kml.DescriptionParts` | geolocate.php:168 | the description is `<img src="file:///`, then the path with the letters of each `.JPG` lowered and every other character kept, position by position, then `" width="640" />` |
| `Kml.Render` | geolocate.php:171 | PHP's string conversion in the concatenation: a string as it is, a number through the float formatting `show`; its partner is `CoordinatesRoundTrip` |
| `Kml.Coordinates` | geolocate.php:171 | the coordinate text; its partner is `CoordinatesRoundTrip` |
| `Kml.CoordinatesRoundTrip` | geolocate.php:171 | splitting the coordinate text on ',' gives the rendered longitude, the rendered latitude and "0" in that order, when the rendered values contain no comma |
| `Kml.MakePlacemark` | geolocate.php:160-171 | one placemark: title, description, the photo icon style and the coordinates; `PlacemarkExample` shows all four on one image |
| `Kml.Basename` | geolocate.php:175 | PHP `basename`; its partner is `BasenameOfJoin` |
| `Kml.BasenameOfJoin` | geolocate.php:175 | the base name of `dir\name` is `name`, with or without trailing separators |
| `Kml.OutputName` | geolocate.php:175 | the file written; its partner is `DefaultOutputName` |
| `Kml.DefaultOutputName` | geolocate.php:175 | with no configured output file, the root `dir\name` is written to `name.kml` |
| `Kml.TitleExample` | geolocate.php:163-164 | the title of `root\sub\a.JPG` under the root `root` is " sub a.JPG" |
| `Kml.DescriptionExample` | geolocate.php:168 | the description of `root\sub\a.JPG` links `root\sub\a.jpg` |
| `Kml.PlacemarkExample` | geolocate.php:160-171 | a photo at 10 "N", 20 "W" gets the title " sub a.JPG", the lower-case link, the photo icon style and the coordinates "-20,10,0" |
| `Scenario.ExampleCandidates` | geolocate.php:115-124 | in a root listing ".", "..", `notes.txt` and `sub` holding `a.JPG`, the walker finds `notes.txt` and then `root\sub\a.JPG` |
| `Scenario.ExampleAccepted` | geolocate.php:127-141 | a `.JPG` file tagged 10/1 0/1 0/1 "N" and 20/1 0/1 0/1 "W" is accepted at latitude 10 and longitude -20 |
| `Scenario.TraversalExample` | geolocate.php:111-151 | on that tree, the traversal yields exactly one record: `root\sub\a.JPG` at latitude 10, longitude -20; the text file is skipped |
| `Kml.WriteKml` | geolocate.php:156-176 | no document for zero records; otherwise one placemark per record, in record order, written to the configured file or the default name |
| `Kml.Geolocate` | geolocate.php:153-178 | the reported count is the number of records of the traversal, no document exists exactly when it is 0, the placemarks follow the records in order, and the document goes to the configured file or the default name |

## Left out

- Filesystem access (`opendir`, `readdir`, `is_dir`, `closedir`, lines 114-148): replaced by the `Node`/`Entry` tree, in which a directory `opendir` cannot open is marked unreadable. `readdir` order is the listing order of the tree.
- Symbolic-link cycles: `is_dir` follows links, so a cycle makes the script descend through ever longer paths until the operating system stops resolving them (too many levels of links on Linux, the reparse-point or path-length limit on Windows), recording the files under the cycle many times over; a finite tree cannot express a cycle.
- `exif_read_data` (line 129), a foreign library call: a parameter `ExifReader` from path to optional GPS tags. A tag is an array of component strings: a RATIONAL component is spelled "n/d", and an integer component, which the reader returns as a PHP integer, is spelled in decimal, which is how PHP converts it to a string.
- A one-component tag that the reader returns as a scalar rather than an array: `convert_DMS` then gets no array, and `count()` of a scalar returns 1 in PHP 7 but throws a TypeError in PHP 8. The model's tags are always arrays.
- Progress printing and output buffering (lines 121-123) and the final message (line 178) beyond the count it reports: observability only.
- The `ExSimpleXMLElement` CDATA helper and SimpleXML tree building (lines 66-77, 157), and the static style template (lines 27-62): thin wrappers over libraries and a constant prefix. The document is the list of placemark fields.
- Writing the file with `asXML` (line 175): I/O; only the file-name choice is modelled.
- `set_time_limit` and the configuration globals (lines 15-23): the root path and output file are parameters.
- PHP floating point: quotients, the /60 and /3600 terms and the negation are exact rationals in the model, without double-precision rounding. The same holds for the number read from a passed-through string: a huge spelling or exponent that a double would round or turn into infinity keeps its exact value.
- PHP's number-to-text conversion in the coordinate text (line 171): the parameter `show` of `Kml.Render`.
- Arithmetic on a passed-through string that starts with no number: PHP 7 reads it as 0 with a warning, PHP 8 throws a TypeError that ends the run, so the model gives it the unspecified value `Indeterminate`. A string that does start with a number is read as that number, as both versions do.
- The division by zero of line 83 for a denominator too large for a double: PHP 7 warns and yields an infinite or NaN float, PHP 8 throws a DivisionByZeroError, so the model gives it the unspecified value `Indeterminate`.
- `basename` (line 175) is modelled with the Windows separators '/' and '\'. Its treatment of a drive-letter colon and its multibyte-locale branch are not modelled.
