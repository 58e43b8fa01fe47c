# Blog content utilities and markdown/HTML plugins, modelled in Dafny

This project models the content layer of an Astro blog:

- the draft filter for posts (`filterPostByDraft`);
- the listing helpers that sort posts and books, collect the unique tags and select books by tag;
- the reading-time estimate for a post's markdown;
- the three tree transformers that run while markdown becomes HTML:
  - `remarkExternalLinks` marks links that leave the site to open in a new tab without a referrer;
  - `remarkImageCredits` copies a `<!-- credit: ... -->` comment onto the image before it;
  - `rehypeImageCredits` wraps each credited image in a `figure` with a `figcaption` and deletes the comment.

One module per source file:

| module | models |
|---|---|
| `Lists` | `Option`, `Array.prototype.filter`, the stable `Array.prototype.sort` by a numeric key |
| `Content` | the blog and book frontmatter fields the utilities read |
| `Common`, `SortedPosts`, `SortedBooks`, `BooksByTag`, `UniqueTags` | the listing helpers |
| `Text`, `ReadingTime` | `\s`, `trim`, `split`, the regex `replace` chain and the minute count |
| `CreditPatterns` | the two credit regular expressions, as the backtracking search the engine runs |
| `Mdast`, `ExternalLinks`, `RemarkCredits` | the markdown tree and the two remark plugins |
| `Hast`, `RehypeCredits` | the HTML tree, its in-memory children arrays, and the rehype plugin |

Modelling choices:

- Each tree transformer is a method on a holder class (`Mdast.Tree`, `Hast.HTree`) that rewrites `root` in place. Its recursive walk is a method with a loop over the children, proved equal to a specification function.
- The rehype plugin has two phases, and so does its model:
  - a visit fills the two worklists (`RehypeCredits.CreditPass`);
  - two countdown loops splice and assign into the parents' children arrays.
- The children arrays live in a `Heap`, a map from a parent's original path to its current array. The tree is then read back from the heap (`Hast.Materialize`).

## Model

| member | source | states |
|---|---|---|
| Common.DevKeepsEveryPost | src/utils/common.ts:6-8 | in development mode every post passes the draft filter |
| Common.ProductionRejectsExactlyDrafts | src/utils/common.ts:10 | outside development a post passes exactly when its `draft` flag is absent or `false` |
| Common.DependsOnlyOnDraft | src/utils/common.ts:5-11 | the verdict depends on nothing but the mode and the `draft` field |
| Lists.FilterCounts | src/utils/getSortedPosts.ts:6 | filtering keeps each passing element exactly as often as the input has it, and adds nothing |
| Lists.FilterIsSubsequence | src/utils/getBooksByTag.ts:5 | a filtered list keeps the input order |
| Lists.SortDesc | src/utils/getSortedPosts.ts:7-11 | the sort returns a permutation of its input, ordered by key from largest to smallest |
| Lists.SortDescStable | src/utils/getSortedPosts.ts:7-11 | the sort is stable: elements with equal keys keep their input order |
| SortedPosts.Seconds | src/utils/getSortedPosts.ts:9-10 | `Math.floor(ms / 1000)`: the whole second containing the instant, also before 1970 |
| SortedPosts.GetSortedPosts | src/utils/getSortedPosts.ts:4-11 | the result is a permutation of the posts that pass the draft filter, newest second first, and holds no draft outside development |
| SortedPosts.SameSecondKeepsOrder | src/utils/getSortedPosts.ts:7-11 | posts published in the same second keep the collection's order |
| SortedPosts.KeptPostsAllPresent | src/utils/getSortedPosts.ts:6 | every post that passes the filter appears as often as in the input |
| SortedBooks.GetSortedBooks | src/utils/getSortedBooks.ts:6-31 | the result is a permutation of the books that pass the draft filter, ordered by the chosen option's key |
| SortedBooks.RatingOrder | src/utils/getSortedBooks.ts:13-18 | "rating" orders from highest rating to lowest, an absent rating counting as 0 |
| SortedBooks.StatusOrder | src/utils/getSortedBooks.ts:19-23 | "status" orders reading, then to-read, then completed |
| SortedBooks.DateOrder | src/utils/getSortedBooks.ts:8-30 | "date", the default, and every other option order newest second first |
| SortedBooks.EqualKeysKeepOrder | src/utils/getSortedBooks.ts:12-31 | books with equal keys keep the collection's order |
| SortedBooks.KeptBooksAllPresent | src/utils/getSortedBooks.ts:10 | every book that passes the filter appears as often as in the input |
| BooksByTag.GetBooksByTag | src/utils/getBooksByTag.ts:4-5 | every book returned has `tag` among its slugified tags |
| BooksByTag.BooksByTagSpec | src/utils/getBooksByTag.ts:4-5 | the result keeps the input order, and each book with the tag appears as often as in the input |
| UniqueTags.LexTotal | src/utils/getUniqueTags.ts:20 | any two tags are comparable |
| UniqueTags.LexAntisymmetric | src/utils/getUniqueTags.ts:20 | two tags that each sort no later than the other are equal |
| UniqueTags.LexTransitive | src/utils/getUniqueTags.ts:20 | the tag order is transitive |
| UniqueTags.FlatTags | src/utils/getUniqueTags.ts:12-14 | the flattened list holds exactly the tags of the given entries, posts or books alike |
| UniqueTags.SlugifyEach | src/utils/getUniqueTags.ts:15 | each tag is replaced by its slug, position by position |
| UniqueTags.FirstOccurrences | src/utils/getUniqueTags.ts:16-19 | the `indexOf` filter keeps every value, each once |
| UniqueTags.InsertAscending | src/utils/getUniqueTags.ts:20 | inserting a new tag into a strictly ascending list keeps it strictly ascending, with the tag added |
| UniqueTags.SortAscending | src/utils/getUniqueTags.ts:20 | a list without repeats sorts into a strictly ascending list with the same tags |
| UniqueTags.GetUniqueTags | src/utils/getUniqueTags.ts:5-22 | the result is strictly ascending, has no repeats, and holds exactly the slugs of the tags of the kept posts and books |
| UniqueTags.PostSlugsIncluded | src/utils/getUniqueTags.ts:9-15 | the slug of every tag of every kept post is in the result |
| UniqueTags.BookSlugsIncluded | src/utils/getUniqueTags.ts:10-15 | the slug of every tag of every kept book is in the result |
| UniqueTags.ResultSlugsAreKept | src/utils/getUniqueTags.ts:9-19 | every tag in the result is the slug of a tag of a kept post or book |
| UniqueTags.NoEntriesNoTags | src/utils/getUniqueTags.ts:6-7 | with both collections empty (their defaults) there are no tags |
| Text.FindFromFirst | src/utils/remarkExternalLinks.ts:27 | the substring search finds the first occurrence, or reports that there is none |
| Text.Trim | src/utils/getReadingTime.ts:38 | the trimmed string neither starts nor ends with whitespace, and all its characters come from the input |
| Text.TrimStrips | src/utils/getReadingTime.ts:38 | the trimmed string is a slice `s[i..j]` of the input with only whitespace before `i` and after `j`, so exactly the leading and trailing whitespace is removed |
| ReadingTime.MatchAt | src/utils/getReadingTime.ts:14-37 | every match of every regex of the chain is non-empty and ends inside the text |
| ReadingTime.ApplyStepsChars | src/utils/getReadingTime.ts:14-38 | the replacement chain produces only spaces and characters of the input |
| ReadingTime.PlainUnchanged | src/utils/getReadingTime.ts:14-37 | a word of plain characters passes every step of the chain unchanged |
| ReadingTime.FencedBlockAddsNoWords | src/utils/getReadingTime.ts:14 | a fenced code block contributes no words and no minutes, whatever follows it and whatever inline code its body holds, provided the body has no three backquotes in a row and does not end in one (otherwise the lazy match closes earlier) and the text before it starts no fence |
| ReadingTime.InlineCodeAddsNoWords | src/utils/getReadingTime.ts:14-16 | inline code contributes no words and no minutes after a backquote-free prefix, whatever code follows it, provided its closing backquote does not begin three in a row (which the fence step would take) |
| ReadingTime.InlineCodeSpansAddNoWords | src/utils/getReadingTime.ts:14-16 | in a text whose backquotes all belong to non-empty inline code spans, all the spans together contribute no words: the plain text is that of the stretches between them |
| ReadingTime.TagAddsNoWords | src/utils/getReadingTime.ts:18 | an HTML tag contributes no words and no minutes |
| ReadingTime.SplitSpaces | src/utils/getReadingTime.ts:41 | the split yields at least one piece and no piece holds whitespace |
| ReadingTime.WordCountIsStarts | src/utils/getReadingTime.ts:41 | the split-and-filter count is the number of word starts in the text |
| ReadingTime.Minutes | src/utils/getReadingTime.ts:44 | the minutes are at least 1, exactly 1 up to one minute's words, and otherwise the ceiling of words per rate |
| ReadingTime.MinutesMonotonic | src/utils/getReadingTime.ts:44 | more words never give fewer minutes |
| ReadingTime.GetReadingTime | src/utils/getReadingTime.ts:7-47 | the reading time is at least one minute |
| ReadingTime.GetReadingTimeDefault | src/utils/getReadingTime.ts:9 | with the default rate of 200 the reading time is at least one minute |
| ReadingTime.BlankContentIsOneMinute | src/utils/getReadingTime.ts:36-44 | content made only of whitespace reads in one minute |
| ReadingTime.ImageAltTextIsCounted | src/utils/getReadingTime.ts:20-22 | the link step turns `![alt](u)` into `!alt`, which counts as one word |
| ReadingTime.ImageAddsNoWordsIntended | src/utils/getReadingTime.ts:22 | with the image step before the link step an image contributes no text |
| CreditPatterns.HtmlCaptureAtSpec | src/utils/remarkImageCredits.ts:15 | at a position the search captures exactly when the pattern matches there, and it captures the body of the match with the most leading spaces and then the shortest body |
| CreditPatterns.HtmlCreditMatchIff | src/utils/remarkImageCredits.ts:15 | the search finds a capture exactly when the pattern matches somewhere in the string |
| CreditPatterns.HtmlCreditLeftmost | src/utils/remarkImageCredits.ts:15 | the capture comes from the leftmost position where the pattern matches |
| CreditPatterns.CommentCreditIff | src/utils/rehypeImageCredits.ts:25 | the comment pattern matches exactly when the keyword, optional spaces and at least one character of the same line occur |
| Mdast.SetProperty | src/utils/remarkImageCredits.ts:44-46 | after creating `data` and `hProperties` if missing, the key holds the value and every other key is unchanged |
| Mdast.SetPropertyAgain | src/utils/remarkExternalLinks.ts:31-42 | writing the same property value a second time changes nothing |
| ExternalLinks.IsExternalIff | src/utils/remarkExternalLinks.ts:19-27 | a url is external exactly when it is non-empty, starts with `http://`, `https://` or `//`, and does not contain the site's domain |
| ExternalLinks.RelativeIsNotExternal | src/utils/remarkExternalLinks.ts:19-23 | an empty, site-relative, fragment or `mailto:`-style url is not external |
| ExternalLinks.Annotate | src/utils/remarkExternalLinks.ts:15-43 | an external link gets `target` and `rel`, keeping its other properties; every other node is left as it was |
| ExternalLinks.AnnotateTreeAt | src/utils/remarkExternalLinks.ts:7-12 | the walk reaches every node: each path of the result holds the annotated input node |
| ExternalLinks.AnnotateTreeKeepsShape | src/utils/remarkExternalLinks.ts:7-45 | only `data` changes: types, urls, values and children are kept |
| ExternalLinks.AnnotateTreeIdempotent | src/utils/remarkExternalLinks.ts:14-45 | running the pass twice gives the same tree as running it once |
| ExternalLinks.Walk | src/utils/remarkExternalLinks.ts:7-12 | the recursive walk computes the pre-order annotation of the tree |
| ExternalLinks.Transform | src/utils/remarkExternalLinks.ts:5-46 | the transformer leaves the tree annotated |
| RemarkCredits.CommentCredit | src/utils/remarkImageCredits.ts:14-17 | a credit is found exactly when the node is `html` with a string value the pattern matches, and it is the pattern's capture (the leftmost, preferred match by `CreditPatterns.HtmlCreditLeftmost` and `HtmlCaptureAtSpec`) with leading and trailing whitespace removed |
| RemarkCredits.FirstImageFrom | src/utils/remarkImageCredits.ts:34-39 | the position found is the first image among the children, or there is none |
| RemarkCredits.FindFirstImage | src/utils/remarkImageCredits.ts:34-39 | the loop that stops at the first image finds the first image |
| RemarkCredits.SetCredit | src/utils/remarkImageCredits.ts:42-47 | the image gets `data-credit` set to the credit, and everything else about it is kept |
| RemarkCredits.CreditTree | src/utils/remarkImageCredits.ts:12-50 | the pass keeps each node's own fields and number of children |
| RemarkCredits.CreditTreeOnlyCredits | src/utils/remarkImageCredits.ts:12-50 | the pass writes nothing but `data-credit` on images: no node is added, removed or moved |
| RemarkCredits.ImageGetsCredit | src/utils/remarkImageCredits.ts:20-26 | an image followed by a credit comment carries that credit |
| RemarkCredits.ParagraphImageGetsCredit | src/utils/remarkImageCredits.ts:28-47 | a paragraph followed by a credit comment passes the credit to its first image, and is unchanged without one |
| RemarkCredits.NoTargetNoCredit | src/utils/remarkImageCredits.ts:20-40 | a node that is neither an image nor a paragraph, or that no credit comment follows, receives nothing |
| RemarkCredits.CreditTreeChild | src/utils/remarkImageCredits.ts:12-20 | each child is first processed itself and then receives the credit of the comment after it |
| RemarkCredits.Callback | src/utils/remarkImageCredits.ts:14-48 | the callback on the `html` child at an index writes only into the sibling before it |
| RemarkCredits.Walk | src/utils/remarkImageCredits.ts:12 | the visit computes the credited tree |
| RemarkCredits.Transform | src/utils/remarkImageCredits.ts:11-51 | the transformer leaves the credited tree |
| Hast.AtParent | src/utils/rehypeImageCredits.ts:83-86 | a node's parent sits at its path without the last index, and holds the node at that index |
| Hast.Splice | src/utils/rehypeImageCredits.ts:106 | `splice(i, 1)` removes the entry at `i` and shifts the rest left; past the end it changes nothing |
| Hast.Assign | src/utils/rehypeImageCredits.ts:112 | assigning at an index writes that slot, and past the end grows the array, leaving holes |
| Hast.MaterializeUnwritten | src/utils/rehypeImageCredits.ts:103-114 | with no array written the tree reads back as it was given |
| Hast.SpliceWithout | src/utils/rehypeImageCredits.ts:104-107 | splicing out a position before every position dropped so far is dropping it too |
| RehypeCredits.FindImg | src/utils/rehypeImageCredits.ts:46-48 | `find` returns the first `img` element child, or there is none |
| RehypeCredits.ImageBefore | src/utils/rehypeImageCredits.ts:30-52 | a comment has an image exactly when its previous sibling is an `img`, or is a `p` with an `img` child; the image is then that sibling, or the `p`'s first `img` child |
| RehypeCredits.RemovalFor | src/utils/rehypeImageCredits.ts:28-60 | a comment is queued for removal, with its parent and index, exactly when it matches and its image has a truthy credit |
| RehypeCredits.Figure | src/utils/rehypeImageCredits.ts:90-93 | the figure has class `image-with-credit` and holds a copy of the image without `data-credit` and a caption of class `image-credit` holding the credit text |
| RehypeCredits.FigureRecordsNothing | src/utils/rehypeImageCredits.ts:20-71 | a later visit of a figure the pass built queues no removal and no replacement: its `img` has no `data-credit` and its parent is a `figure` |
| RehypeCredits.ReplacementAt | src/utils/rehypeImageCredits.ts:64-99 | an image is queued for wrapping exactly when its credit is a string and its parent is not a figure; a sole image in a linked paragraph replaces the paragraph |
| RehypeCredits.CollectIff | src/utils/rehypeImageCredits.ts:19-101 | the visit reaches every node: a record is in a worklist exactly when the callback makes it for some node |
| RehypeCredits.RemovalsInOrder | src/utils/rehypeImageCredits.ts:19-59 | within each parent the queued comment indices increase along the list |
| RehypeCredits.RemoveAllWithout | src/utils/rehypeImageCredits.ts:104-107 | the splice loop leaves each parent's array without exactly the queued comment positions |
| RehypeCredits.ReplacementsInRange | src/utils/rehypeImageCredits.ts:76-87 | every queued replacement names an existing slot of the original tree |
| RehypeCredits.ReplaceAllSlots | src/utils/rehypeImageCredits.ts:109-114 | the assignment loop puts into each queued slot the new node of its first record |
| RehypeCredits.AsWrittenAgrees | src/utils/rehypeImageCredits.ts:103-114 | as written, a parent ends up as intended when no removed comment precedes a replaced slot in it |
| RehypeCredits.ShiftedFigure | src/utils/rehypeImageCredits.ts:103-114 | as written, two credited images in one paragraph give a figure, the second image unwrapped, then its figure |
| RehypeCredits.ShiftedFigureWrappedAgain | src/utils/rehypeImageCredits.ts:64-101 | a second run over that output queues a replacement, so the pass as written is not idempotent |
| RehypeCredits.CorrectedLands | src/utils/rehypeImageCredits.ts:103-114 | with replacements first every figure lands on its image and every queued comment goes, in every parent |
| RehypeCredits.BothWrapped | src/utils/rehypeImageCredits.ts:103-114 | with replacements first both images of that paragraph are wrapped and both comments go |
| RehypeCredits.CaptionedParagraphWrapped | src/utils/rehypeImageCredits.ts:79-114 | an image alone in a paragraph followed by its comment becomes a figure that replaces the paragraph when nodes are linked, the image otherwise |
| RehypeCredits.CreditPass.Record | src/utils/rehypeImageCredits.ts:19-101 | the callback appends at most one removal and one replacement, as the finders say, and writes no array |
| RehypeCredits.CreditPass.Visit | src/utils/rehypeImageCredits.ts:19-101 | the visit appends the pre-order records of the subtree to both worklists |
| RehypeCredits.CreditPass.RemoveComments | src/utils/rehypeImageCredits.ts:104-107 | the splice loop, last entry first, applies every queued removal |
| RehypeCredits.CreditPass.ReplaceNodes | src/utils/rehypeImageCredits.ts:109-114 | the assignment loop, last entry first, applies every queued replacement |
| RehypeCredits.Transform | src/utils/rehypeImageCredits.ts:11-115 | the transformer leaves the tree as the two-phase pass as written computes it |
| RehypeCredits.TransformCorrected | src/utils/rehypeImageCredits.ts:103-114 | with the two loops swapped the transformer leaves the corrected tree |

## Left out

- Dates: `pubDatetime` is the instant as whole milliseconds; parsing a date string with `new Date` is not modelled.
- Floating point: a book's `rating` is a `real`; JavaScript number rounding is not modelled.
- `localeCompare`: modelled as lexicographic order on Unicode code points (a Dafny `char` is a scalar value). Locale collation rules are not modelled, and neither is UTF-16 code-unit order, which puts characters above U+FFFF below U+E000-U+FFFF.
- `slugifyStr` and `slugifyAll`: `src/utils/slugify.ts` is not part of this model, so they are function parameters.
- `filterBookByDraft`: `src/utils/common.ts` does not export it, so the imports in `getSortedBooks.ts` and `getUniqueTags.ts` do not resolve as the repository stands. The model assumes it is some predicate on books, the parameter `keepBook`, and proves its results for every such predicate.
- Build mode: `import.meta.env.MODE === "development"` is the boolean parameter `isDev`.
- Regular expressions: each one is written out by hand. The `i` flag folds only `A`-`Z`, as it does outside Unicode mode.
- ReadingTime.GetReadingTime: `wordsPerMinute` is a positive whole number. A zero, negative or fractional rate (which gives `Infinity`, `NaN` or a fractional division in the source) is not modelled.
- RemarkCredits.Transform: requires that the root is not itself a credit comment, because the source throws on `parent.children` when the callback gets no parent.
- Mdast: node fields beyond `type`, `url`, `value`, `data.hProperties` and `children` are not kept. `hProperties` values are strings.
- Object identity in the rehype pass: a parent object is identified by its path in the tree as given. Two positions sharing one object (aliasing) are not modelled.
- `parent.parent`: hast nodes normally carry no back-reference. The model's `linked` flag says whether every node knows its parent, or none does.
- `hastscript` property normalisation: `className` strings become token lists, and `undefined` properties are dropped rather than stored.
- Holes and `undefined` entries in children arrays: a `Hast.Hole` is an inert leaf that no callback acts on. Holes the assignment loop creates read back as `Hast.Hole`.
- `unist-util-visit` internals: visitor return values, `SKIP` and `EXIT` are not used by the plugins and are not modelled.
- RehypeCredits.Transform: no idempotence is stated, because as written a second run is not a no-op: the output of `ShiftedFigure` still holds the credited `img(b)` under a `p`, and a second run wraps it (`ShiftedFigureWrappedAgain`). What the model proves instead is the local fact the source relies on, that a figure the pass built queues nothing on a later visit (`FigureRecordsNothing`).

## Findings

| source | as written | input that shows it | evidently intended | confidence | as-written member | corrected member |
|---|---|---|---|---|---|---|
| src/utils/rehypeImageCredits.ts:103-114 | The comments are spliced out first; the figures are then assigned at the indices recorded before the splices. In a parent where a removed comment comes before a credited image, the figure lands one slot per earlier removal too far right. | A paragraph `[img(a), comment, img(b), comment]`, both images credited, both comments credit comments: the result is `[figure(a), img(b), figure(b)]` | Each credited image is replaced by its figure and each credit comment removed: `[figure(a), figure(b)]` | not executed | RehypeCredits.ShiftedFigure | RehypeCredits.BothWrapped |
| src/utils/getReadingTime.ts:20-22 | The link step runs before the image step. It matches the `[alt](u)` inside `![alt](u)` and leaves `!alt`, so the image step never matches and the alt text is counted. | `"![alt](u)"`: plain text `"!alt"`, one word | An image contributes no words | not executed | ReadingTime.ImageAltTextIsCounted | ReadingTime.ImageAddsNoWordsIntended |
