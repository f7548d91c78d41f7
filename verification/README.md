# BCF viewer core, modelled in Dafny

This project models the core of a browser viewer for BCF (BIM Collaboration Format) archives. A BCF file is a zip container with these parts:

- `bcf.version`, `project.bcfp` and `extensions.xml` at its top level;
- one folder per topic, holding a `markup.bcf` XML document and snapshot images.

The viewer does five things, and each has a module here:

- It reads the archive into a version, an optional project, optional extension lists, and the list of topics (`BcfArchive`, `BcfMetadata`).
- It decodes each topic's markup into a header and a topic record (`MarkupDecoder`).
- It describes dates relative to now, e.g. "3 days ago" (`RelativeTime`).
- It steps through a topic's images with an image slider (`ImageSlider`).
- It decides what the page shows for the parsed data (`BcfViewer`).

The modules underneath are:

- `Xml`: an already-parsed document tree with the DOM queries the decoders use. `querySelector` and `querySelectorAll` match descendants in document order; `textContent` is the concatenated text.
- `Strings`: JavaScript `split`, `trim` (with the exact whitespace set of the language), `toLowerCase`, and decimal digits.
- `Sequences`: the `indexOf`-based deduplication.
- `BcfTypes`: the records, including the `T | T[]` shape (`OneOrMany`) the decoder produces when a list has exactly one entry.

The archive is given as its ordered list of entries. Each entry has a path and either the parsed document of its text or `None` when reading it fails. Every operation is a pure function. Every property is proved for all inputs, except three worked examples on fixed documents: `BcfMetadata.CheckAcceptsThree` and `BcfMetadata.CheckRejectsTwoOne` run the version check on one version document each, and `BcfViewer.NestedCommentShownOnce` follows one BCF 3.0 comment through decoding and display.

## Model

| member | source | states |
|---|---|---|
| Xml.FirstInIsHead | src/utils/xmlParser.ts:25 | `querySelector` (a depth-first search that stops early) returns the head of the `querySelectorAll` list |
| Xml.ElementsInAppend | src/utils/bcfParser.ts:179 | the elements matched in two runs of sibling nodes are those of the first run followed by those of the second (document order) |
| Xml.GetAttribute | src/utils/xmlParser.ts:51 | a value is found exactly when the element has an attribute of that name, and it is the value of the first such attribute |
| Xml.FirstAttributeUnique | src/utils/xmlParser.ts:51 | the first attribute of a name has one value, so the value `getAttribute` returns is determined |
| Xml.ElementsWithin | src/utils/bcfParser.ts:166 | the descendant selector `ProjectInfo Project` yields only `Project` elements, all of them when already inside a `ProjectInfo`, and none when no `ProjectInfo` lies among the nodes |
| Xml.ElementsWithinIff | src/utils/bcfParser.ts:166 | an element is matched by `ProjectInfo Project` exactly when it is a `Project` below some `ProjectInfo` element of the document |
| Xml.WithinOuterElement | src/utils/bcfParser.ts:166 | below a `ProjectInfo` element the selector matches every `Project` descendant, in document order |
| Xml.NoOuterNoMatch | src/utils/bcfParser.ts:166 | a document without `ProjectInfo` has no `ProjectInfo Project` match, however many `Project` elements it holds |
| MarkupDecoder.TextOrEmpty | src/utils/xmlParser.ts:54 | `el.querySelector(t)?.textContent \|\| ''` is the text of the first `t` descendant, or empty when there is none |
| MarkupDecoder.TextOrAbsent | src/utils/xmlParser.ts:55 | the `\|\| undefined` form is absent when there is no such element or its text is empty, and otherwise is that text |
| MarkupDecoder.AttrOrEmpty | src/utils/xmlParser.ts:51 | with no attribute of that name the result is the empty string; otherwise it is the value of the element's first attribute of that name |
| MarkupDecoder.AttrOrAbsent | src/utils/xmlParser.ts:52-53 | a present result is non-empty and is the value of the element's first attribute of that name; an absent one means there is no such attribute or the first one is empty |
| MarkupDecoder.DecodeHeader | src/utils/xmlParser.ts:24-42 | one file record per `File` descendant of the header, in order, with defaulted fields; stored bare exactly when there is one |
| MarkupDecoder.DecodeComment | src/utils/xmlParser.ts:75-82 | each comment field is the first matching descendant's text or attribute with its default; the body is empty when no `Comment` lies below |
| MarkupDecoder.DecodeViewPoint | src/utils/xmlParser.ts:95-99 | viewpoint guid defaults to empty, and the viewpoint and snapshot references are absent when missing or empty |
| MarkupDecoder.DecodeLabels | src/utils/xmlParser.ts:63-68 | labels are absent exactly when there is no `Labels` element; otherwise they are the texts of every `Label` below the first one, in order (possibly none) |
| MarkupDecoder.DecodeComments | src/utils/xmlParser.ts:70-88 | comments are set exactly when a `Comments` element has a `Comment` below it; then there is one record per such descendant, in order, stored bare exactly when there is one |
| MarkupDecoder.DecodeViewpoints | src/utils/xmlParser.ts:90-105 | the same rule for `ViewPoint` elements below the first `Viewpoints` |
| MarkupDecoder.DecodeTopic | src/utils/xmlParser.ts:44-61 | every topic field is the first matching descendant (or attribute) of the topic with the default its idiom gives |
| MarkupDecoder.ParseMarkup | src/utils/xmlParser.ts:3-22 | decoding fails exactly when there is a `parsererror`, no `Markup`, no `Header` or no `Topic`, checked in that order; otherwise the header and topic come from the first `Header` and first `Topic` |
| BcfTypes.ToListCollapse | src/types/bcf.ts:60-65 | normalising the collapsed `T \| T[]` value gives back the decoded list, so bare and array shapes hold the same comments |
| BcfTypes.CollapseToList | src/types/bcf.ts:27 | collapsing a normalised value gives it back except for a one-element array, a shape the decoder never produces |
| BcfMetadata.ParseVersion | src/utils/bcfParser.ts:153-161 | the version is the `VersionId` of the first `Version` element, or empty when either is missing |
| BcfMetadata.ParseProject | src/utils/bcfParser.ts:163-172 | the project comes from the first `Project` below a `ProjectInfo`: one is used exactly when some `ProjectInfo` has a `Project` below it, and it lies below a `ProjectInfo`; its id defaults to empty, and its name is absent when missing or empty |
| BcfMetadata.ProjectSelection | src/utils/bcfParser.ts:166 | the selector finds a `Project` exactly when some `ProjectInfo` has one below it, and the one found lies below a `ProjectInfo` |
| BcfMetadata.AllTexts | src/utils/bcfParser.ts:178-181 | one text per matching element of the whole document, in order, duplicates kept |
| BcfMetadata.ParseExtensions | src/utils/bcfParser.ts:174-191 | each of the six lists holds the text of every element of its own tag anywhere in the document, in document order |
| BcfMetadata.ExtensionsInDocumentOrder | src/utils/bcfParser.ts:174-191 | each of the six extension lists is independent and in document order: the lists of a concatenated document are the concatenated lists |
| BcfMetadata.MatchAtSound | src/utils/bcfParser.ts:11 | a regex match found at a position is `<VersionId>`, a digit run, `.`, a digit run and `</VersionId>` there |
| BcfMetadata.MatchAtComplete | src/utils/bcfParser.ts:11 | every such occurrence is found, with the greedy digit runs |
| BcfMetadata.FindMatch | src/utils/bcfParser.ts:12 | the search returns the leftmost match, and none when there is none anywhere |
| BcfMetadata.DecimalAtLeastThreeIff | src/utils/bcfParser.ts:13 | the captured decimal `w.f` is at least 3.0 exactly when its integer part is at least 3 |
| BcfMetadata.CheckBcfVersion | src/utils/bcfParser.ts:10-14 | true exactly when the leftmost `<VersionId>d+.d+</VersionId>` occurrence exists and its integer part is at least 3 |
| BcfMetadata.LeftmostMatchUnique | src/utils/bcfParser.ts:12 | the leftmost match and its captures are unique |
| BcfMetadata.CheckAcceptsThree | src/utils/bcfParser.ts:10-14 | `<VersionId>3.0</VersionId>` passes the check |
| BcfMetadata.CheckRejectsTwoOne | src/utils/bcfParser.ts:10-14 | `<VersionId>2.1</VersionId>` fails the check |
| BcfMetadata.IsValidGuidByGroups | src/utils/bcfParser.ts:193-196 | the anchored, case-insensitive GUID pattern accepts a string exactly when its dash-separated groups are five hex runs of 8-4-4-4-12 digits with version digit 1-5 and variant digit 8, 9, a or b |
| BcfArchive.FileAt | src/utils/bcfParser.ts:22 | `zip.file(name)` finds an entry exactly when one has that path and the name is not a directory path |
| BcfArchive.FileAtUnique | src/utils/bcfParser.ts:22 | with distinct entry paths, `zip.file(name)` returns the one entry stored under that name |
| BcfArchive.ReadOptional | src/utils/bcfParser.ts:22-46 | an optional top-level file is absent when missing, aborts the parse when it cannot be read, and otherwise is decoded |
| BcfArchive.FolderOfIff | src/utils/bcfParser.ts:53-57 | a path names folder `f` exactly when it is `f/rest` with non-empty `f` and slash-free `rest` (`f/` included) |
| BcfArchive.CandidatesIff | src/utils/bcfParser.ts:52-57 | a name is a candidate folder exactly when some entry lies directly in it |
| BcfArchive.TopicFoldersSpec | src/utils/bcfParser.ts:52-58 | the discovered folders are exactly the names some entry lies directly in; they are slash-free and non-empty, each appears once, and they come in the order of first occurrence |
| Sequences.KeepFirstUpToSpec | src/utils/bcfParser.ts:58 | the `indexOf(x) === i` filter keeps every element once, at its first occurrence, in order |
| Sequences.FirstOccurrencesSpec | src/utils/bcfParser.ts:58 | the deduplicated list has the same members and no duplicates, and is ordered by first occurrence |
| BcfArchive.TopicImagesIff | src/utils/bcfParser.ts:80-126 | an image is listed exactly when a readable, non-directory entry under `topicId/` (at any depth) has an image extension in any letter case; its MIME type is the one the path gives |
| BcfArchive.TopicImagesAppend | src/utils/bcfParser.ts:97-133 | every entry is judged on its own, so one failed image read drops that image only and keeps entry order |
| BcfArchive.TopicImagesDistinct | src/utils/bcfParser.ts:80-93 | with distinct entry paths (the keys of the zip's file map), no image of a topic is listed twice |
| BcfArchive.MimeTypeOfImage | src/utils/bcfParser.ts:104-121 | the MIME type of an image path follows its extension: `jpg`/`jpeg` give JPEG, `gif` GIF, `bmp` BMP, and `png`, `tif` and `tiff` PNG |
| BcfArchive.OnlyExtension | src/utils/bcfParser.ts:105 | a lower-cased path ends in at most one dot-free extension, so the image filter and the MIME switch agree |
| BcfArchive.MimeTypeIgnoresCase | src/utils/bcfParser.ts:83-105 | lower-casing a path changes neither the image test nor the MIME type |
| BcfArchive.ParseTopicsFailsIff | src/utils/bcfParser.ts:61-68 | the topic loop fails exactly when some folder has a markup file that cannot be read or decoded |
| BcfArchive.ParseTopicsIds | src/utils/bcfParser.ts:61-142 | on success there is one topic per folder with a `markup.bcf`, named after the folder, in folder order |
| BcfArchive.ParseTopicsMarkup | src/utils/bcfParser.ts:61-142 | every topic carries the decoded markup and the images of its own folder |
| BcfArchive.FoldersWithMarkup | src/utils/bcfParser.ts:63-65 | a folder is kept exactly when it has a markup file |
| BcfArchive.ParseBcf | src/utils/bcfParser.ts:16-151 | on success the version is decoded from `bcf.version`, or is `3.0` when there is none; the project and extensions are absent exactly when their files are, and otherwise are the project and extensions decoded from those files |
| BcfArchive.ParseBcfTopics | src/utils/bcfParser.ts:52-142 | the topics of a parsed archive are exactly the non-empty, slash-free folder names with a markup file, once each, in the order the folders are discovered, each with its markup and images |
| BcfArchive.ParseBcfFailsIff | src/utils/bcfParser.ts:16-151 | parsing fails exactly when a top-level file cannot be read or some folder's markup cannot be read or decoded |
| BcfArchive.MarkupFolderDiscovered | src/utils/bcfParser.ts:52-63 | every non-empty, slash-free folder with a markup file is discovered |
| RelativeTime.Breakdown | src/utils/relativeTime.ts:24-28 | the chain of floors gives the whole seconds, minutes, hours, days and weeks of the difference directly, and the months and years are the whole numbers of 30.44-day and 365.25-day periods in the day count |
| RelativeTime.Choose | src/utils/relativeTime.ts:34-50 | the unit is the largest one with a non-zero count; seconds are used only above 30; otherwise the phrase is the moment phrase |
| RelativeTime.PhraseOf | src/utils/relativeTime.ts:23-51 | the unit depends only on the band the difference lies in: under 31 s a moment; then seconds, minutes, hours; days under 7 days; weeks under 31 days; months under 366 days; years from there; the number said is the whole count of that unit in the difference |
| RelativeTime.NoSingularSecond | src/utils/relativeTime.ts:46-47 | the singular "second" is never produced |
| RelativeTime.RelativeTimeString | src/utils/relativeTime.ts:23-51 | under 31 s the text is "just now" or "in a moment"; otherwise it is count, unit word and "ago" or "from now" |
| RelativeTime.RelativeTime | src/utils/relativeTime.ts:5-21 | a past date is described by the difference with the past wording, a future date by the absolute difference with the future wording, so swapping the two dates only switches the wording; an unparseable date gives "just now" |
| ImageSlider.UpdateButtons | src/components/ImageSlider.ts:65-73 | previous is disabled exactly at the first image and next exactly at the last; once hidden, the arrows stay hidden, and lists of at most one image hide them |
| ImageSlider.Init | src/components/ImageSlider.ts:9-31 | the slider starts at image 0 with previous disabled, next disabled exactly for a single image, and the arrows hidden for at most one image |
| ImageSlider.Prev | src/components/ImageSlider.ts:38-43 | previous steps back one image and does nothing at the first |
| ImageSlider.Next | src/components/ImageSlider.ts:45-50 | next steps forward one image and does nothing at the last |
| ImageSlider.Current | src/components/ImageSlider.ts:52-56 | the image shown is the one at the index, and nothing for an empty list |
| ImageSlider.RunValid | src/components/ImageSlider.ts:38-73 | any sequence of clicks keeps the index in range, the button flags consistent with it, and the arrows hidden exactly for lists of at most one image |
| ImageSlider.ReachableValid | src/components/ImageSlider.ts:9-73 | every state reachable from the constructor is valid and shows an existing image when there is one |
| ImageSlider.NextPrev | src/components/ImageSlider.ts:38-50 | forward then back away from the ends returns to the same state |
| ImageSlider.PrevNext | src/components/ImageSlider.ts:38-50 | back then forward away from the ends returns to the same state |
| ImageSlider.NextClicks | src/components/ImageSlider.ts:45-50 | k forward clicks reach image index + k, stopping at the last |
| ImageSlider.PrevClicks | src/components/ImageSlider.ts:38-43 | k backward clicks reach image index - k, stopping at the first |
| ImageSlider.CounterParts | src/components/ImageSlider.ts:58-63 | the counter reads back as the one-based index followed by the image count |
| BcfViewer.Header | src/components/BCFViewer.ts:41-45 | the header shows the version, and a project line exactly when a project was read, with its name or "Unnamed" |
| BcfViewer.DetailRowsShown | src/components/BCFViewer.ts:74-90 | Status, Priority, Creation Date and Creation Author rows are always shown; Modified Date, Modified Author and Assigned To rows are shown exactly when their value is present and non-empty |
| BcfViewer.DetailRowsOrder | src/components/BCFViewer.ts:74-102 | the rows come in that fixed order, once each; each shows its value, formatted for dates or "Unknown" when missing; a row carries a title exactly when it is a date row with a date, and the title is the relative time of that date |
| BcfViewer.DisplayedCommentsIff | src/components/BCFViewer.ts:166-171 | a comment is displayed exactly when it is in the list and its body is not all whitespace |
| BcfViewer.DisplayedCommentsAppend | src/components/BCFViewer.ts:166-171 | the filter keeps order and multiplicity: filtering a concatenation is the concatenation of the filtered parts |
| BcfViewer.ViewComment | src/components/BCFViewer.ts:173-201 | the author falls back to "Unknown Author"; the date is formatted, or "Unknown Date" when missing; a title appears exactly when there is a date and is its relative time; the modification line appears exactly when both modification fields are non-empty, with that author, the formatted modification date and its relative time |
| BcfViewer.CommentsSection | src/components/BCFViewer.ts:107-171 | the comments section appears exactly when the topic has comments, bare or as an array, and lists the displayable ones in order |
| BcfViewer.ImagesSection | src/components/BCFViewer.ts:120-154 | "No images available" exactly for an empty list; otherwise one tile per image, in order, labelled "Image k:" with its URL |
| BcfViewer.TileLabelsDistinct | src/components/BCFViewer.ts:139 | no two image tiles share a label |
| BcfViewer.RenderTopic | src/components/BCFViewer.ts:55-65 | a topic is shown under its index with its title or "Untitled", followed by its detail rows, its comments section and its images section |
| BcfViewer.Render | src/components/BCFViewer.ts:34-52 | the page has the header and one topic view per parsed topic, in order |
| BcfViewer.Load | src/components/BCFViewer.ts:15-24 | the page is the error "Failed to load BCF file" exactly when the archive cannot be read or parsing fails; otherwise it is the rendering of the parsed data |
| BcfViewer.PhantomDropped | src/components/BCFViewer.ts:166-171 | when a comment's text sits in a nested `Comment`, decoding yields a second record with an empty body, and the display keeps only the first |
| BcfViewer.NestedCommentShownOnce | src/utils/xmlParser.ts:73-86 | a BCF 3.0 comment (text in a nested `Comment` element) is decoded as two records and displayed once, with its text |
| Strings.SplitJoin | src/utils/bcfParser.ts:54 | joining parts that do not contain the separator and splitting again gives the parts back |
| Strings.JoinSplit | src/utils/bcfParser.ts:54 | splitting and joining again gives the string back |
| Strings.TrimEmptyIff | src/components/BCFViewer.ts:170 | `trim()` is empty exactly when the string is all whitespace |
| Strings.NatToStringRoundTrip | src/components/BCFViewer.ts:139 | the decimal text of a number reads back as that number |

## Left out

- Zip decompression and `zipHandler`: the archive is given as its list of entries, and a failed read is an entry without content. Entry paths are the keys of the zip's file map, so they are distinct, and the model assumes this (`BcfArchive.DistinctPaths`): with distinct paths each name reads its one entry (`BcfArchive.FileAtUnique`) and no image is listed twice (`BcfArchive.TopicImagesDistinct`). With a repeated path the model would list an image twice and read the first entry, where JSZip keeps the last.
- The XML text parser (`DOMParser`): documents arrive as trees. A `parsererror` element in the tree stands for a parse failure. Element matching is exact on the tag name; namespace prefixes are not resolved.
- Blob and object-URL creation for images: a topic image is its path and MIME type. The viewer receives the URL of an image as a function parameter.
- Date formatting (`formatDateTime`) and the relative-time tooltip are function parameters of the viewer. Parsing a date string and reading the clock are left out: `RelativeTime.RelativeTime` takes integer milliseconds, or `None` for an unparseable date.
- `BcfMetadata.ParseProject`: document nodes are values without identity, so which of several `Project` elements below a `ProjectInfo` comes first in document order is fixed by the pre-order walk of `Xml.ElementsWithin` and not restated in a contract; the contract states that the element used lies below a `ProjectInfo` and that one is used whenever such an element exists.
- `RelativeTime.Breakdown`: the floating-point divisions by 30.44 and 365.25 are modelled as exact rationals (`days * 25 / 761`, `days * 4 / 1461`). For a whole day count below 2^40 both floors agree with the float results: each exact quotient is either an integer or at least 1/761 (months) or 1/1461 (years) away from one, which is far more than the rounding error of a double.
- `BcfMetadata.CheckBcfVersion`: compares the captured decimal exactly instead of through `parseFloat`. The two agree except for digit runs long enough to round to 3.0 from below, such as `2.99999999999999999`.
- `Strings.Lower`: only ASCII letters are lowered. Of the other characters only the Kelvin sign (to `k`) and capital I with dot above (to `i` and a combining dot) lower into ASCII letters. Neither can complete an image extension, so the image test and the MIME type are unaffected.
- Asynchronous control flow, console logging and DOM element construction are not modelled. Neither are the loading message, the click-listener wiring and the CSS classes.
- `DocumentReferences` and `RelatedTopics` of the topic type: the decoder never sets them.
- `checkBCFVersion` and `isValidGuid` are modelled, but no code in the repository calls them. Topic folder names are not checked to be GUIDs.
- The image slider is modelled on its own: `BCFViewer` imports it but renders topic images as a list of tiles.
- Where the description of the format and the code differ, the model follows the code. The header takes every `File` descendant, not only children. Labels, comments and viewpoints take every matching descendant, not only children. Because of that, a BCF 3.0 comment produces an extra record with an empty body, which the viewer's trim filter removes (`BcfViewer.NestedCommentShownOnce`).
