# Package catalog of the manta rpm repository site

The site fetches one JSON manifest of package files, each entry holding a
storage `key`, a `size` and a `modified` date. It derives a `name`, a
`version` and an `arch` from each key. It then lists the packages grouped by
name, then by architecture, with each group's releases in descending
string order of version. Each release shows its size in base-1024 units.

This project models that pipeline, which is the whole of the non-presentation logic in
`src/App.js`:

- `Packages`: the derived record (`Derive`, `DeriveAll`) and what the fetch
  leaves in the catalog (`Load`).
- `Catalog`: the name list, the arch lists, the release lists (`Names`,
  `Arches`, `Releases`, `Build`).
- `Sorting`: `Array.prototype.sort` with the source's comparator. It is
  modelled as a stable insertion sort, and `SortedUnique` proves that this
  is the only result a stable sort can give.
- `SizeFormat`: `size`. It is a `method` with the source's `while` loop,
  proved against the rendering function `SizeText` and the unit-index
  predicate `IsUnitIndex`.
  `SizeFormat` also holds `toFixed` (`RoundHalfUp`, `FixedNat`,
  `FixedText`).
- `Strings`, `Numbers`, `Seqs`, `Wrappers`: the other JavaScript built-ins
  these use. These are `split`, `replace` of a string pattern, the relational
  operators on strings, `parseInt(x, 10)`, `map`, `filter`, `reverse` and the
  insertion order of a `Set`.

Where the code's behaviour is surprising, the model follows the code. One
example: for a value of 1024^9 or more, the unit lookup runs past the
table. The code then renders "undefined", and so does `UnitLabel`.

Rows marked "proof helper" state facts about literals or intermediate
steps that other lemmas use; they model no source line by themselves.

## Model

| member | source | states |
|---|---|---|
| Packages.Filename | src/App.js:23-24 | computes `key.split('/').reverse()[0]`; its contract is carried by `FilenameIsLastSegment` and `FilenameOfPath` |
| Packages.PackageName | src/App.js:23 | computes `split('-')[0]` of the file name; its contract is carried by `NameIsFilenameBeforeHyphen` and `ConventionalFilename` |
| Packages.PackageVersion | src/App.js:24 | computes the two first-occurrence replaces on the file name; its contract is carried by `VersionWithoutLiterals`, `ConventionalFilename` and `Strings.RemoveFirst` |
| Packages.PackageArch | src/App.js:25 | computes `key.split('/')[1]`, absent without a second segment; its contract is carried by `ArchAbsent`, `ArchOfPath` and `ArchOfTwoSegments` |
| Packages.Derive | src/App.js:21-26 | builds one derived record; its contract is carried by `DerivationExample` and `DeriveAllKeepsRecords` |
| Packages.DeriveAll | src/App.js:21-26 | the `map` over the manifest; its contract is carried by `DeriveAllKeepsRecords` and `Load` |
| Packages.Load | src/App.js:19-27 | a failed fetch leaves the catalog empty; a manifest yields one derived record per entry, in order |
| Packages.DeriveAllKeepsRecords | src/App.js:21-26 | deriving keeps the number, order, key, size and modified of every record; name, version and arch depend on the key alone |
| Packages.FilenameIsLastSegment | src/App.js:23-24 | the file name is the key's suffix after its last `/`, or the whole key when it has none |
| Packages.FilenameOfPath | src/App.js:23-24 | under a directory ending in `/`, the file name is the part after it |
| Packages.NameIsFilenameBeforeHyphen | src/App.js:23 | the name is the file name's prefix before its first `-`, and the whole file name when it has no `-` |
| Packages.FirstPartBeforeSeparator | src/App.js:23 | the first split part of `a + sep + w` is `a` when `a` holds no `sep` |
| Packages.VersionWithoutLiterals | src/App.js:24 | a file name holding neither literal is its own version |
| Packages.RemoveLeading | src/App.js:24 | replacing a leading literal removes exactly that prefix |
| Packages.RemoveTrailing | src/App.js:24 | replacing a trailing literal that does not start earlier removes exactly that suffix |
| Packages.ConventionalFilename | src/App.js:23-24 | `manta-<v>.fc35.x86_64.rpm` under any directory has name `manta` and version `<v>` |
| Packages.LiteralFacts | src/App.js:23-24 | the `manta-` literal is `manta` and a hyphen; neither literal holds a `/` (proof helper) |
| Packages.ArchAbsent | src/App.js:25 | the arch is absent exactly when the key has no `/` |
| Packages.ArchOfPath | src/App.js:25 | the arch of `top/arch/rest` is `arch` |
| Packages.ArchOfTwoSegments | src/App.js:25 | the arch of `top/arch` is `arch` |
| Packages.ExampleSuffixPosition | src/App.js:24 | the platform suffix does not start inside `3.1.1-0` |
| Packages.ExampleDirectory | src/App.js:25 | `RPMS/x86_64/` is two `/`-free segments, each followed by `/` (proof helper) |
| Packages.DerivationExample | src/App.js:21-26 | `RPMS/x86_64/manta-3.1.1-0.fc35.x86_64.rpm` gives name `manta`, version `3.1.1-0` and arch `x86_64`, and the other fields are kept |
| Catalog.Releases | src/App.js:341 | computes the filter, `sort` and `reverse` of one (name, arch) pair; its contract is carried by `ReleasesOrdered`, `ReleasesMultiset`, `ReleasesMembers` and, through `Sorting.SortedUnique`, fixed uniquely |
| Catalog.Build | src/App.js:331-341 | the whole packages tab; its contract is carried by `GroupNames`, `CatalogPartition` and `RecordInExactlyOneGroup` |
| Catalog.Names | src/App.js:331 | the name list has no duplicates, holds only names of records, and holds every record's name |
| Catalog.NamesFirstAppearance | src/App.js:331 | names are in order of first appearance: a record with a later name is preceded by a record with each earlier name |
| Catalog.Arches | src/App.js:336 | a name's arch list has no duplicates and holds exactly the arches of that name's records |
| Catalog.ArchesFirstAppearance | src/App.js:336 | a name's arches are in order of first appearance among its records |
| Catalog.GroupArches | src/App.js:336-341 | one group per arch, in the arch list's order, each holding that pair's release list |
| Catalog.GroupNames | src/App.js:331-341 | one group per name, in the name list's order, each holding that name's arch groups |
| Catalog.FilterNameArch | src/App.js:336-341 | filtering on the (name, arch) pair is filtering on the name and then on the arch |
| Catalog.ReleasesMultiset | src/App.js:341 | a release list is a permutation of the records with its name and arch |
| Catalog.ReleasesOrdered | src/App.js:341 | a release list is a permutation of its records, holds only its name and arch, has non-increasing versions as strings, and lists equal versions in reverse input order |
| Catalog.ReleasesMembers | src/App.js:341 | every record of a release list is in the manifest and has that list's name and arch |
| Catalog.ReleaseOrderExample | src/App.js:341 | versions `1.10.0`, `1.9.0` are listed as `1.9.0`, `1.10.0` |
| Catalog.EqualVersionsExample | src/App.js:341 | two records of equal version are listed in reverse input order |
| Catalog.ArchGroupsPartition | src/App.js:336-341 | a name's arch groups together hold the records of the given arches of that name |
| Catalog.NameGroupsPartition | src/App.js:331-341 | the name groups together hold the records of the given names |
| Catalog.CatalogPartition | src/App.js:331-341 | the tab lists every record exactly as often as the manifest holds it; the group sizes sum to the record count |
| Catalog.RecordInExactlyOneGroup | src/App.js:331-341 | every record is in the group of its own name and arch, which is listed, and in no other group |
| Sorting.Insert | src/App.js:341 | insertion adds exactly one element |
| Sorting.SortBy | src/App.js:341 | the sort is a permutation |
| Sorting.InsertAscending | src/App.js:341 | inserting into an ascending list keeps it ascending |
| Sorting.SortAscending | src/App.js:341 | the sort result is ascending under the comparator |
| Sorting.InsertKeepsKeyOrder | src/App.js:341 | insertion puts the new element in front of every element with its key |
| Sorting.SortStable | src/App.js:341 | the sort is stable: the elements of each key keep their input order |
| Sorting.ReverseAscending | src/App.js:341 | reversing an ascending list gives a descending one |
| Sorting.SortedUnique | src/App.js:341 | any ascending list that keeps each key's elements in input order equals the sort result |
| Sorting.SameKeyOrderEqual | src/App.js:341 | two ascending lists with the same elements per key, in the same order, are equal |
| Sorting.HeadsEqual | src/App.js:341 | two such lists start with the same element |
| Sorting.TailsAgree | src/App.js:341 | after an equal head, the rests agree key by key |
| Sorting.HeadKeyPresent | src/App.js:341 | the head's key selects a non-empty filter (proof helper) |
| Strings.Split | src/App.js:23-25 | `split` gives at least one part, no part holds the separator, and joining the parts gives back the string |
| Strings.SplitJoin | src/App.js:23-25 | `split` undoes `join` on separator-free parts |
| Strings.JoinInjective | src/App.js:23-25 | join is injective on separator-free parts |
| Strings.SplitSingle | src/App.js:23-25 | a string splits into exactly one part when it holds no separator |
| Strings.SplitAfterSeparator | src/App.js:25 | splitting `a + sep + w` gives `a` and then the parts of `w` |
| Strings.JoinFirst | src/App.js:23 | the first part is the prefix before the first separator |
| Strings.JoinLast | src/App.js:23-24 | the last part is the suffix after the last separator |
| Strings.IndexOf | src/App.js:24 | `indexOf` gives the least position of an occurrence, or none when there is no occurrence |
| Strings.RemoveFirst | src/App.js:24 | `replace(pat, '')` removes the first occurrence only, and leaves a string without one unchanged |
| Strings.LexLess | src/App.js:341 | string `<`; its contract is carried by `LexLessIff` and the order lemmas below |
| Strings.Compare | src/App.js:341 | the sort's comparator; its contract is carried by `CompareConsistent` and `LexNotSemantic` |
| Strings.LexLessIff | src/App.js:341 | string `<` is a proper prefix or a smaller code unit at the first difference |
| Strings.LexLessIrreflexive | src/App.js:341 | no string is below itself |
| Strings.LexLessTransitive | src/App.js:341 | string `<` is transitive |
| Strings.LexLessTotal | src/App.js:341 | any two distinct strings are ordered |
| Strings.LexLessAsymmetric | src/App.js:341 | string `<` is asymmetric |
| Strings.NotLessTransitive | src/App.js:341 | "not below" is transitive |
| Strings.CompareConsistent | src/App.js:341 | the comparator is zero exactly on equal versions and antisymmetric |
| Strings.LexNotSemantic | src/App.js:341 | `1.10.0` is below `1.9.0` as a string |
| SizeFormat.SizeValue | src/App.js:9 | computes `parseInt(x, 10)`, with NaN and 0 read as 0; its contract is carried by `SizeValueOfText`, `NonNumericSizeIsZero` and the `SizeValueOf` examples |
| SizeFormat.SizeText | src/App.js:13 | the returned text at a unit index; its contract is carried by `OneDecimalExactly`, `UnitPastTable` and the `SizeText` examples |
| SizeFormat.UnitLabel | src/App.js:13 | the unit table lookup, "undefined" past its end; its contract is carried by `UnitPastTable` |
| SizeFormat.FixedNat | src/App.js:13 | `toFixed` on a non-negative quotient; its contract is carried by `FixedNatPoint`, `RoundHalfUp` and the `SizeText` examples |
| SizeFormat.FixedText | src/App.js:13 | `toFixed` with a sign; its contract is carried by `FixedTextPoint` |
| SizeFormat.Size | src/App.js:8-14 | `size` returns the rendering of the parsed value at its unit index |
| SizeFormat.UnitIndexUnique | src/App.js:10-12 | the unit index is unique: 0 below 1024, else the largest `l` with 1024^l <= x |
| SizeFormat.UnitPastTable | src/App.js:13 | the unit is "undefined" exactly when the value reaches 1024^9 |
| SizeFormat.OneDecimalExactly | src/App.js:13 | the text shows a decimal point exactly when the unit is above bytes and x < 10 * 1024^l |
| SizeFormat.FixedNatPoint | src/App.js:13 | `toFixed(d)` writes a point exactly when `d` is positive |
| SizeFormat.FixedTextPoint | src/App.js:13 | a sign adds no point |
| SizeFormat.UnitLabelHasNoPoint | src/App.js:13 | no unit label holds a point (proof helper) |
| SizeFormat.RoundHalfUp | src/App.js:13 | `toFixed` rounds to the nearest integer, upward on a tie |
| SizeFormat.DivBelow | src/App.js:10 | the loop guard on the integer part reads the same as on the exact quotient |
| SizeFormat.SizeTextBytes | src/App.js:8-14 | 0 gives "0 b", 1023 gives "1023 b" |
| SizeFormat.SizeTextKilobytes | src/App.js:8-14 | 1024 gives "1.0 kb", 1536 gives "1.5 kb" |
| SizeFormat.SizeTextTenKilobytes | src/App.js:8-14 | 10240 gives "10 kb" |
| SizeFormat.SizeValueOfText | src/App.js:9 | a size written as an integer's text reads back as that integer |
| SizeFormat.NonNumericSizeIsZero | src/App.js:9 | text with no digit after the optional sign counts as 0 |
| SizeFormat.SizeValueOfEmpty | src/App.js:9 | the empty text counts as 0 |
| SizeFormat.SizeValueOfPlaceholder | src/App.js:9 | "n/a" counts as 0 |
| SizeFormat.SizeValueOfSign | src/App.js:9 | a lone "-" counts as 0 |
| Numbers.ParseInt | src/App.js:9 | computes `parseInt(x, 10)`, `None` for NaN; its contract is carried by `ParseDigits`, `TrimStart`, `ParseIntText`, `ParseIntUnsigned` and `ParseIntNegative` |
| Numbers.ParseDigits | src/App.js:9 | a number exactly when the text starts with a digit, and it is non-negative |
| Numbers.ParseIntText | src/App.js:9 | `parseInt` reads back any integer's text, whatever non-digit text follows |
| Numbers.ParseIntUnsigned | src/App.js:9 | a numeral followed by a non-digit reads as its value |
| Numbers.ParseIntNegative | src/App.js:9 | a minus sign negates the numeral's value |
| Numbers.ParseDigitsNumeral | src/App.js:9 | the digit run of a numeral followed by a non-digit is the numeral |
| Numbers.DigitPrefixOfNumeral | src/App.js:9 | the digit prefix of a numeral followed by a non-digit is that numeral |
| Numbers.TrimStart | src/App.js:9 | the result is a suffix; everything removed is white space, and what is left does not start with white space |
| Numbers.NatTextValue | src/App.js:9 | the value of an integer's decimal text is the integer |
| Numbers.PowStrictlyIncreasing | src/App.js:10-12 | powers of 1024 grow strictly, so the unit index is well defined |
| Numbers.DivDiv | src/App.js:11 | dividing by 1024 once per step is dividing by 1024^l |
| Seqs.Reverse | src/App.js:23 | `reverse()` puts element `i` at position `n - 1 - i` |
| Seqs.MapSeq | src/App.js:21 | `map` keeps the length and applies the function at every position |
| Seqs.FilterKey | src/App.js:336-341 | `filter` on a key test never lengthens; its contents are stated by `FilterKeyMembers` |
| Seqs.FilterKeyMembers | src/App.js:336-341 | `filter` keeps exactly the elements with the key |
| Seqs.FilterKeyConcat | src/App.js:336-341 | `filter` distributes over concatenation |
| Seqs.FilterKeyReverse | src/App.js:341 | `filter` commutes with `reverse` |
| Seqs.Distinct | src/App.js:331 | `[...new Set(s)]` holds each element of `s` once and nothing else |
| Seqs.DistinctFirstAppearance | src/App.js:331 | a `Set` lists its elements in order of first insertion |
| Seqs.DistinctPrecedence | src/App.js:331 | each occurrence of a later element is preceded by an occurrence of each earlier one |
| Seqs.PartitionByKey | src/App.js:331-341 | splitting by a covering list of distinct keys loses and duplicates nothing |
| Seqs.UnionOverCons | src/App.js:331-341 | adding one element adds it to the union exactly when its key is listed |

## Left out

- The network fetch, `response.json()` and the `console.error` handler (src/App.js:19-27) are I/O. `Load` takes their outcome as a parameter: `None` for any failure.
- React state, the `useEffect` lifecycle, the tabs, the JSX markup and the static shell snippets are presentation.
- The rendering of `modified` through `Intl.DateTimeFormat('en-GB')` is a foreign library call.
- The download link `https://deb.manta.systems/${p.key}` is string concatenation with nothing to prove.
- Packages.RawPackage: the manifest's `size` may be a JSON number or a string; `parseInt` reads either as text, so the model takes it as text. Only integers are given a text (`IntText`, below 10^21); fractions and exponent notation are not modelled.
- SizeFormat.Size: the source computes on doubles. The model uses exact integers and holds for values whose magnitude is below 2^53. Beyond that, float rounding is not modelled ("-9007199254740993" parses to -9007199254740992 in the source, while the model keeps it exact). For a size of -10^21 or less, `toFixed` writes exponent form ("-1e+21 b") where the model writes every digit; a positive size is below 1024 when it reaches `toFixed`, so it never reaches that form.
- SizeFormat.Size: a size text whose value rounds past the largest double (from 2^1024 - 2^970, about 1.8e308; so any numeral of 310 or more significant digits) makes `parseInt` return Infinity, and the source's loop `while (n >= 1024 && ++l)` (src/App.js:10) then never ends. The model's value is an exact integer, so its loop always ends; this non-termination is not captured.
- SizeFormat.Size: its contract says there exists a unit index `l` with the right property. `UnitIndexUnique` shows that this index is unique.
- Strings.LexLess: JavaScript compares UTF-16 code units. The model compares `char`s, which is the same order for text in the Basic Multilingual Plane.
