# Blog markdown pipeline, modelled in Dafny

This project models the markdown pipeline of a personal blog. A post is a markdown file with YAML
front matter. `readPost` checks for the front matter and projects the metadata from it. It then
runs the rest of the markdown tree through these stages, in order:

1. relative image URLs are prefixed with the post's folder;
2. every `{% toc %}` paragraph is replaced by a nested list of links to the headings;
3. the markdown tree is converted to an HTML tree, and the root keeps its `data`;
4. code is highlighted;
5. relative `src` attributes of `video` elements inside raw HTML blocks are prefixed;
6. every heading gets an `id` slug and a leading anchor link;
7. raw HTML is parsed into the tree;
8. every link gets an `onClick` handler;
9. the tree is serialised.

A separate helper builds a post's full title from its icon and title.

The modules:

- `Wrappers`: `Option`, `Result` and the pipeline's errors.
- `JsString`: the white-space class of `\s` and `String.prototype.trim`.
- `Slug`: the heading slug: non-word runs become `-` (or nothing at either end), then the text is lower-cased.
- `Mdast`, `Hast`: the markdown and HTML trees and their text extraction.
- `HeadingOutline`: the two passes that build the heading outline. The first finds the smallest depth. The second keeps a stack of open outline nodes and inserts empty placeholder nodes where the depth jumps.
- `Toc`: the table-of-contents plugin. It covers marker recognition, the nested list of links and the replacement of marker paragraphs.
- `HeadingSlugs`: the heading-anchor plugin on the HTML tree.
- `Media`: both URL-rewriting plugins, with the URL-resolution rule shared between them.
- `Pipeline`: `readPost`, the custom root handler, the `onClick` stage and the order of the stages.
- `Posts`: `getFullTitle`.

Several operations change things step by step in the source. These are the two outline passes of
the TOC plugin, the visitors of both media plugins and the `onClick` stage. Each is written as a
`method` with loops and is proved equal to a specification function. The properties are proved
about those functions. The TOC plugin's overwrite of marker paragraphs
(`src/lib/markdown/headings.ts:69-73` and `:93`) is the function `Toc.ReplaceAll`, which
`Toc.RemarkTableOfContents` calls after the outline loops.

Some behaviour of the code worth stating plainly:

- `TOC_REGEX` (`src/lib/markdown/headings.ts:15`) has no `i` flag, so the marker is case-sensitive. `visit(root, "paragraph", …)` (`src/lib/markdown/headings.ts:70-71`) reaches paragraphs at any depth, so nested marker paragraphs are replaced too.
- Only a missing `yaml` first child gives the fallback post (`src/lib/markdown/index.ts:65`). An error from `yaml.load` propagates, and so does YAML that decodes to `null` or `undefined`, because reading a field of it throws (`src/lib/markdown/index.ts:74-80`).
- `new URL` throws on a URL it cannot parse (`src/lib/markdown/media.ts:23`), and that aborts the render.

## Model

| member | source | states |
|---|---|---|
| JsString.Trim | src/lib/util/posts.ts:4 | the trimmed string starts and ends with a non-white-space character, or is empty |
| JsString.TrimIsSlice | src/lib/util/posts.ts:4 | `trim` keeps one contiguous piece of its input and removes only white space before and after it |
| JsString.TrimEmptyIffWhitespace | src/lib/util/posts.ts:4 | a string trims to nothing exactly when it is all white space |
| JsString.TrimAround | src/lib/util/posts.ts:4 | white space around a string that has no white space at its ends is removed, and the string is returned intact |
| JsString.TrimIdempotent | src/lib/util/posts.ts:4 | trimming twice is trimming once |
| Slug.Slugify | src/lib/markdown/headings.ts:17-22 | a slug holds only lower-case word characters and `-`, never starts or ends with `-`, and never has two `-` in a row |
| Slug.SlugifyJoinsAtRun | src/lib/markdown/headings.ts:17-22 | a run of non-word characters between two word characters becomes exactly one `-`, joining the slugs of the two sides |
| Slug.SlugifyDropsLeadingRun | src/lib/markdown/headings.ts:19-21 | a run of non-word characters at the start of the text (index 0) leaves no trace in the slug |
| Slug.SlugifyDropsTrailingRun | src/lib/markdown/headings.ts:19-21 | a run of non-word characters that reaches the end of the text leaves no trace in the slug |
| Slug.SlugifyKeepsWords | src/lib/markdown/headings.ts:17-22 | the word characters of the slug are exactly those of the text, lower-cased and in order |
| Slug.SlugifyOfWordText | src/lib/markdown/headings.ts:17-22 | a text made only of word characters keeps every character, lower-cased |
| Slug.SlugifyOfNonWordText | src/lib/markdown/headings.ts:19-21 | a text with no word character has the empty slug |
| Slug.SlugifyFixesSlugs | src/lib/markdown/headings.ts:17-22 | a text that is already a slug is its own slug |
| Slug.SlugifyIdempotent | src/lib/markdown/headings.ts:17-22 | slugifying a slug changes nothing |
| Slug.SlugifyNotInjective | src/lib/markdown/headings.ts:17-22 | different headings can share a slug: `Step 1!` and `Step 1?` both give `step-1` |
| HeadingOutline.MinDepthOf | src/lib/markdown/headings.ts:49-52 | `minDepth` stays infinite exactly when there is no heading; otherwise it is the depth of some heading and no heading is shallower |
| HeadingOutline.MinDepth | src/lib/markdown/headings.ts:49-52 | the first pass, as a loop, computes that smallest depth |
| HeadingOutline.Grow | src/lib/markdown/headings.ts:58-62 | pushing placeholders raises the stack to the heading's level and keeps the root at the bottom |
| HeadingOutline.Shrink | src/lib/markdown/headings.ts:63 | popping lowers the stack to the heading's level and keeps the root at the bottom |
| HeadingOutline.Place | src/lib/markdown/headings.ts:57-66 | after a heading of level `l` the stack has height `l + 1` with the new heading on top |
| HeadingOutline.PlaceHeading | src/lib/markdown/headings.ts:56-67 | the visitor body, with its two `while` loops, does exactly that |
| HeadingOutline.Steps | src/lib/markdown/headings.ts:56-67 | after the headings the stack's root has empty text and its height is one more than the last heading's level |
| HeadingOutline.BuildOutline | src/lib/markdown/headings.ts:47-67 | both passes build an outline whose root has empty text and whose preorder walk is the plan: each heading at level depth − minDepth + 1, preceded by a placeholder for every level it skips |
| HeadingOutline.OutlinePreorder | src/lib/markdown/headings.ts:54-67 | the outline's preorder walk lists the planned slots, text and level, in order |
| HeadingOutline.PlanEntries | src/lib/markdown/headings.ts:56-66 | with the placeholders removed, the plan lists every heading once, in document order, at its level |
| HeadingOutline.PlanShape | src/lib/markdown/headings.ts:56-66 | the plan is well nested: it starts at level 1, every level is positive, each slot is at most one level deeper than the one before, every placeholder is followed by a deeper slot, and the last slot is the last heading |
| Toc.TocMarkerIsRegex | src/lib/markdown/headings.ts:15 | a paragraph text is a marker exactly when it is white space, `{%`, white space, `toc`, white space, `%}`, white space |
| Toc.TocMarkerAccepted | src/lib/markdown/headings.ts:15 | `{% toc %}` is a marker |
| Toc.TocMarkerIsCaseSensitive | src/lib/markdown/headings.ts:15 | `{% TOC %}` is not a marker |
| Toc.TocMarkerIsWholeText | src/lib/markdown/headings.ts:15 | `{% toc %} here` is not a marker: the pattern is anchored at both ends |
| Toc.TocLink | src/lib/markdown/headings.ts:81-85 | the link of an outline node points to `#` followed by the slug of its text, and its label is that text |
| Toc.TocItem | src/lib/markdown/headings.ts:78-88 | an item holds the link of its outline node, followed by a nested list exactly when the node has children; that list is the one for the node itself |
| Toc.TocList | src/lib/markdown/headings.ts:75-90 | a node renders as a list with one item per child |
| Toc.TocShowsPlan | src/lib/markdown/headings.ts:75-91 | reading the rendered TOC's links in document order gives every planned slot in turn: labelled with its text, pointing at `#` and its slug, and inside as many lists as its level. So labels and nesting follow the outline, not only the URLs |
| Toc.TocLinkUrl | src/lib/markdown/headings.ts:81-85 | the link of an outline node points to `#` followed by the slug of its text |
| Toc.TocLinksFollowPlan | src/lib/markdown/headings.ts:75-91 | the links of the rendered TOC, in document order, are `#` plus the slug of every planned slot; the root is not rendered, and a placeholder gives `#` |
| Toc.EmptyToc | src/lib/markdown/headings.ts:75-91 | a document without headings gets an empty list |
| Toc.ReplaceIn | src/lib/markdown/headings.ts:69-93 | a marker paragraph becomes the TOC list. Any other parent keeps its kind and has each child replaced in its own place, so markers at any depth become the TOC and nothing else changes. Other leaves are unchanged |
| Toc.ReplaceAll | src/lib/markdown/headings.ts:69-93 | the replacement works child by child: the `i`-th node is the `i`-th child replaced, and no node moves |
| Toc.ReplaceWithoutMarker | src/lib/markdown/headings.ts:69-93 | a tree without markers is unchanged |
| Toc.ReplaceRemovesMarkers | src/lib/markdown/headings.ts:69-93 | after the replacement no marker paragraph is left, when paragraphs hold only phrasing content |
| Toc.ReplaceIdempotent | src/lib/markdown/headings.ts:69-93 | replacing a second time changes nothing, under the same condition |
| Toc.TocListHasNoParagraphs | src/lib/markdown/headings.ts:75-90 | the TOC list holds no paragraph, so it can never be taken for a marker |
| Toc.TableOfContents | src/lib/markdown/headings.ts:47-94 | the plugin keeps the root's data and its number of top-level nodes |
| Toc.RemarkTableOfContents | src/lib/markdown/headings.ts:47-94 | the plugin's passes compute that tree |
| Toc.TableOfContentsRemovesMarkers | src/lib/markdown/headings.ts:69-93 | no marker paragraph survives the plugin |
| Toc.TableOfContentsWithoutMarker | src/lib/markdown/headings.ts:69-93 | a document without a marker passes through unchanged |
| Toc.TopLevelMarkerBecomesToc | src/lib/markdown/headings.ts:69-93 | a top-level marker becomes exactly the TOC list of all the document's headings. Its links, labels and nesting follow their plan |
| HeadingSlugs.AnchorFor | src/lib/markdown/headings.ts:29-38 | the inserted anchor is an `a` element with no children, with `href` `#slug`, `role` `img` and `aria-label` `Link to heading` |
| HeadingSlugs.DecorateNode | src/lib/markdown/headings.ts:24-39 | the text and the tag are kept. A heading with properties gains `id` = slug of its text; its children become the anchor followed by its old children, each decorated. Any other element keeps its tag and properties and has each child decorated. Non-elements are unchanged |
| HeadingSlugs.DecorateAnchorsEverywhere | src/lib/markdown/headings.ts:24-39 | the walk reaches every element. Every `h1`–`h6` element with properties, however deep (inside a blockquote, a list item or another heading), ends up with `id` = slug of its text and the anchor to that id as its first child |
| HeadingSlugs.HeadingSlugsAnchorsEverywhere | src/lib/markdown/headings.ts:24-40 | the same holds for every top-level node of the tree |
| HeadingSlugs.DecorateAll | src/lib/markdown/headings.ts:25-39 | a sequence of nodes keeps its length and its text |
| HeadingSlugs.HeadingSlugs | src/lib/markdown/headings.ts:24-40 | the root keeps its data, its number of children and its text |
| HeadingSlugs.AnchorLinksToId | src/lib/markdown/headings.ts:27-35 | a heading's `id` is the slug of its text, and its anchor links to exactly that `id` |
| HeadingSlugs.ChildrenFollowAnchor | src/lib/markdown/headings.ts:29-39 | the old children follow the anchor in their old order, each decorated in turn |
| HeadingSlugs.DecorateTwiceAddsTwoAnchors | src/lib/markdown/headings.ts:24-39 | the plugin is not idempotent: a second run adds a second anchor |
| Media.SlugOf | src/lib/markdown/media.ts:20-21 | the rewrite has a slug exactly when `data.slug` is present and not empty |
| Media.FirstUnresolved | src/lib/markdown/media.ts:23 | the URL named in the error is one of the URLs, and it does not parse |
| Media.FirstUnresolvedIsFirst | src/lib/markdown/media.ts:22-25 | every URL before the one named parses: it is the first failure in visiting order, where `new URL` throws |
| Media.UpdateImageUrls | src/lib/markdown/media.ts:18-26 | without a slug the tree is returned unchanged, and a success keeps the root data; `Media.UpdateImageUrlsSpec` states the rest |
| Media.ImageNodeSpec | src/lib/markdown/media.ts:22-25 | the image visitor succeeds exactly when every image URL parses. Each relative URL becomes `./slug/url` and the others stay; everything but image URLs is unchanged. On failure the error names the first URL that does not parse |
| Media.ImageNodesSpec | src/lib/markdown/media.ts:22-25 | the same for a sequence of nodes, in document order |
| Media.UpdateImageUrlsSpec | src/lib/markdown/media.ts:18-26 | without a slug the tree is unchanged. With one, the stage succeeds exactly when every image URL parses, rewrites the image URLs, keeps the data and changes nothing else |
| Media.ImageRewriteNotIdempotent | src/lib/markdown/media.ts:23-24 | a relative URL is prefixed again on a second run |
| Media.VisitImage | src/lib/markdown/media.ts:22-25 | the visitor, as a loop over each node's children, computes the image rewrite |
| Media.VisitImages | src/lib/markdown/media.ts:22-25 | the same over a sequence of nodes |
| Media.RemarkUpdateImageUrls | src/lib/markdown/media.ts:18-26 | the image plugin computes `UpdateImageUrls` |
| Media.VideoSrc | src/lib/markdown/media.ts:37-40 | a URL is read only from a `video` element whose properties hold a string `src` |
| Media.VideoNodeSpec | src/lib/markdown/media.ts:36-45 | the element visitor succeeds exactly when every video `src` parses. It rewrites the relative ones, changes nothing else, and on failure names the first `src` that does not parse |
| Media.VideoNodesSpec | src/lib/markdown/media.ts:36-45 | the same for a sequence of nodes |
| Media.VisitVideo | src/lib/markdown/media.ts:36-45 | the visitor computes the video rewrite, and its `isChanged` flag is set exactly when some `src` was relative |
| Media.VisitVideos | src/lib/markdown/media.ts:36-45 | the same over a sequence of nodes |
| Media.RawBlockSpec | src/lib/markdown/media.ts:32-49 | a raw block's rewrite succeeds exactly when every video `src` in it parses. The text is kept verbatim unless one of those sources is relative. In that case it is re-serialised from its parsed tree with the sources rewritten and nothing else changed |
| Media.RewriteRawsSpec | src/lib/markdown/media.ts:32-49 | rewriting the raw blocks in walk order succeeds exactly when every block's rewrite does. The `k`-th result is the `k`-th block's rewrite, and a failure is that of the first block that fails |
| Media.RawNodesRewrite | src/lib/markdown/media.ts:32-49 | the tree walk rewrites the raw blocks, at any depth, exactly as those blocks are rewritten one after the other in walk order: same success, same texts, same error |
| Media.RawNodesKeepShape | src/lib/markdown/media.ts:32-49 | the stage changes nothing but the text of raw nodes |
| Media.UpdateHtmlUrls | src/lib/markdown/media.ts:28-50 | without a slug the tree is returned unchanged, and a success keeps the root data; `Media.UpdateHtmlUrlsSpec` states the rest |
| Media.UpdateHtmlUrlsSpec | src/lib/markdown/media.ts:28-50 | without a slug the tree is unchanged. With one, the stage succeeds exactly when every raw block at any depth can be rewritten, and the `k`-th raw block's text becomes that block's rewrite. A failure is that of the first failing block. On success the data is kept and nothing but raw text changes |
| Media.VisitRaw | src/lib/markdown/media.ts:32-49 | the `raw` visitor computes the raw-block rewrite |
| Media.VisitRaws | src/lib/markdown/media.ts:32-49 | the same over a sequence of nodes |
| Media.RehypeUpdateHtmlUrls | src/lib/markdown/media.ts:28-50 | the raw-HTML plugin computes `UpdateHtmlUrls` |
| Pipeline.Field | src/lib/markdown/index.ts:77-80 | a metadata field is present exactly when the YAML mapping has the key, and then holds its value |
| Pipeline.ProjectKeepsFourFields | src/lib/markdown/index.ts:74-81 | only `icon`, `title`, `date` and `excerpt` are read: mappings that agree on them give the same metadata |
| Pipeline.RunnerInput | src/lib/markdown/index.ts:83-87 | the runner gets the children after the front matter and the root data with `slug` set to the folder name, all other data kept |
| Pipeline.ToHastRoot | src/lib/markdown/index.ts:38-42 | the converted root carries the markdown root's data, with the converted children |
| Pipeline.OnClickNode | src/lib/markdown/index.ts:49-56 | every `a` element gets `onClick` = `event.stopPropagation()`, with properties created when missing. Other elements keep their properties, and tags, text and shape are preserved |
| Pipeline.OnClickAll | src/lib/markdown/index.ts:50-55 | a sequence of nodes keeps its length and text |
| Pipeline.OnClickMakesClickable | src/lib/markdown/index.ts:49-56 | after the stage every `a` element at any depth has the handler |
| Pipeline.OnClickOnlyTouchesLinks | src/lib/markdown/index.ts:49-56 | at any depth the stage changes nothing but the properties of `a` elements. Every other element keeps its tag, properties and children |
| Pipeline.OnClickIdempotent | src/lib/markdown/index.ts:49-56 | a second run of the stage changes nothing |
| Pipeline.VisitOnClick | src/lib/markdown/index.ts:50-55 | the visitor, as a loop over the children, computes the stage |
| Pipeline.OnClick | src/lib/markdown/index.ts:49-56 | the root keeps its data and its number of children |
| Pipeline.BeforeHtmlUrls | src/lib/markdown/index.ts:32-45 | the first four stages fail exactly when the image stage fails, and they hand the root data on unchanged |
| Pipeline.Run | src/lib/markdown/index.ts:32-57 | the render succeeds exactly when both URL stages succeed: conversion, highlighting, anchors, rehype-raw, `onClick` and serialisation never fail. A failure carries the error of the first URL stage that fails |
| Pipeline.SlugReachesHtmlStage | src/lib/markdown/index.ts:32-88 | the folder name given as `slug` is still in the root data when the raw-HTML stage runs. With an empty name both URL stages do nothing. With a non-empty name the image stage succeeds exactly when every image URL parses, and the raw-HTML stage prefixes with that name. `Run` succeeds exactly when both URL stages do |
| Pipeline.ImageStageOnlyUrls | src/lib/markdown/media.ts:22-25 | the image stage changes nothing but image URLs |
| Pipeline.SameUpToImages | src/lib/markdown/headings.ts:50-72 | trees that differ only in image URLs have the same headings and the same marker paragraphs |
| Pipeline.TocUpToImages | src/lib/markdown/index.ts:33-34 | a tree that differs from another only in image URLs gets, at each top-level marker of the other, the TOC of the other's headings |
| Pipeline.TocBuiltFromInputHeadings | src/lib/markdown/index.ts:32-47 | the first four stages succeed exactly when the image stage does. The markdown tree they then convert and highlight holds, at each top-level marker of the runner's input, exactly the TOC of the input's own headings. It is built in markdown, after the image rewrite and before any heading anchor exists |
| Pipeline.ReadPost | src/lib/markdown/index.ts:59-90 | without front matter the post is the fallback. With front matter a post results exactly when the metadata projects and the runner succeeds, and its content is the runner's output |
| Pipeline.ReadPostOutcomes | src/lib/markdown/index.ts:59-90 | without front matter the post is the fixed fallback. Malformed YAML fails with a YAML error, and YAML decoding to nothing fails before the runner. A successful post has the projected metadata |
| Posts.FullTitle | src/lib/util/posts.ts:3-4 | the full title has no white space at either end and is no longer than icon, space and title together |
| Posts.NoIconIsTrimmedTitle | src/lib/util/posts.ts:4 | without an icon, or with an empty one, the full title is the trimmed title |
| Posts.IconAndTitleJoined | src/lib/util/posts.ts:4 | an icon and a title with no white space at their outer ends are joined by exactly one space |
| Posts.TitleAloneUnchanged | src/lib/util/posts.ts:4 | a title with no white space at its ends and no icon is shown unchanged |
| Posts.EmptyFullTitle | src/lib/util/posts.ts:4 | the full title is empty exactly when icon and title are both blank |

## Left out

- Reading the post file and parsing it (`vfileRead`, remark-parse with GFM and front matter) are left out. `ReadPost` takes the parsed markdown tree.
- The libraries the pipeline calls are parameters (`Pipeline.Libraries`, `Media.HtmlCodec`, `Media.OriginOf`), not models:
  - YAML decoding;
  - the default mdast-to-hast handlers;
  - highlight.js with its x86asm, PowerShell and Svelte grammars (`highlight` is a total function here);
  - rehype-parse and rehype-stringify;
  - rehype-raw;
  - WHATWG URL parsing.
- `src/lib/markdown/hljs-svelte.ts` is not part of this model.
- `Pipeline.Libraries.highlight` cannot fail. Depending on its version, rehype-highlight may throw on a code block whose language is not registered. The version is not part of this model, so that failure of the render is not modelled.
- The asynchronous file read and its not-found error are left out: they are I/O.
- In-place mutation by the visitors is modelled as rebuilding the tree. This covers URL assignment, `properties.id`, `children.unshift`, `properties[attr]` and `onClick`. No node is shared between two places in these trees, so the result is the same.
- The TOC plugin writes one shared list object into every marker position. The model puts a copy of the same value at each position. The list is never mutated afterwards, because the HTML tree is built from fresh objects, so the sharing is not observable.
- `HeadingOutline`: the stack of the outline pass holds values. A node joins its parent's children when it is popped or when the outline is closed, rather than through a shared reference at push time. The finished outline is the same, as `BuildOutline` states.
- `Media`: `tagName in SRC_ATTRIBUTES` is modelled as `tag == "video"`. Inherited object keys such as `constructor` also pass that test, but they never yield a string attribute.
- `Toc.ReplaceRemovesMarkers` and `Toc.ReplaceIdempotent` require that paragraphs hold only phrasing content, which is what the markdown parser produces. Without that requirement, an outer paragraph whose nested paragraph is replaced could become a marker itself.
- `Mdast.ToString` follows `mdast-util-to-string` with its defaults: a node's value, else an image's alt text, else its children's text. `Hast.ToString` follows `hast-util-to-string`: only text nodes count.
- Root `data` holds only string values. The pipeline reads only `slug` from it.
- Sorting posts by date, the routes, and the rest of the site are outside the pipeline and are not modelled.
