# obsidian-juejin core, modelled in Dafny

The Obsidian plugin fetches an article from juejin.cn by its id and saves it as a
Markdown note. Apart from UI glue and calls into libraries, its logic lives in
`src/main.ts`. This model covers that logic:

- the submit handler's id check and the article URL;
- the file name and path of the note, derived from the page title;
- the image-localization pass (`downloadAnnex`). The pass downloads every image,
  names each copy `annexPath/<uuid><suffix>`, builds a `Map` from URL to name, and
  then rewrites every image's `src` in place;
- `solveArticle`, which runs that pass and then creates the note.

Modules, one per concern:

- `Wrappers`: `Option` and `Result`.
- `JsText`: JavaScript's `String.prototype.trim` over the exact whitespace set
  ECMAScript defines, and when a trimmed string is falsy.
- `Article`: the id check and URL, the title sanitisation and the note path
  (pure functions and lemmas).
- `Annex`: the suffix rule `alt === '' ? '.png' : alt.match(/\.[a-zA-Z0-9]+$/)![0]`,
  local names, JavaScript `Map` construction, the pass as a specification
  function `Localize`, and the pass itself as methods over an `array<Image>`.
  `DownloadAll` is the first loop, `RewriteAll` the second, and `LocalizeImages`
  runs both.
- `Plugin`: `SolveArticle` and the submit handler `SubmitArticle`, as methods
  that sequence the steps.

Inputs that come from outside the code are parameters:

- the page's image elements (`array<Image>`) and its title text;
- whether the page GET succeeds (`pageServed`);
- whether the GET of image `k` succeeds (`served(k)`);
- the uuid drawn for image `k` (`uuid(k)`).

Behaviour of the code worth noting:

- The code issues one download per image element and does not de-duplicate
  URLs. Two images with one URL therefore cause two requests and two files.
  Both images then point at the second file, so the first file is orphaned
  (`DuplicateSourceOrphansFirstFile`).
- A non-empty alt without a trailing `.ext`, or a missing alt, throws. That
  aborts the whole pass, and no image is skipped on its own.
- A page without a title gives a note named `.md`, not an error.

## Model

| member | source | states |
|---|---|---|
| `JsText.Trim` | src/main.ts:77 | the trimmed string has no whitespace at either end |
| `JsText.TrimDropsOnlySpace` | src/main.ts:77 | trim keeps one contiguous part of the string and drops only whitespace around it |
| `JsText.TrimEmptyIff` | src/main.ts:77 | a trimmed string is empty (falsy) exactly when every character is whitespace |
| `JsText.TrimIdempotent` | src/main.ts:106 | trimming a trimmed string changes nothing |
| `JsText.TrimSkipsOuterSpace` | src/main.ts:106 | whitespace added around a string does not change its trim |
| `Article.SubmitRequest` | src/main.ts:77-84 | no request exactly when the id is missing or all whitespace; otherwise the URL is the post prefix followed by the id as typed |
| `Article.SubmitRequestInjective` | src/main.ts:83 | distinct ids are fetched from distinct URLs |
| `Article.SubmitKeepsUntrimmedId` | src/main.ts:82-84 | the URL holds the untrimmed id; only the check trims |
| `Article.ReplaceForbidden` | src/main.ts:106 | the global replace keeps the length and turns each of `* " \ / < > : \| ?` into one space, leaving every other character where it was |
| `Article.ReplaceForbiddenIdempotent` | src/main.ts:106 | replacing in an already replaced title changes nothing |
| `Article.SanitizedTitle` | src/main.ts:106 | the file name has the trimmed title's length and no forbidden character; it matches the trimmed title at every allowed character and has a space at every forbidden one |
| `Article.SanitizedTitleNotIdempotent` | src/main.ts:106 | trim comes before replace, so `*a` gives ` a`, and sanitizing again gives `a` |
| `Article.SanitizedTitleExample` | src/main.ts:106 | `A/B:C` gives `A B C` |
| `Article.SanitizedTitleIgnoresOuterSpace` | src/main.ts:106 | whitespace around the title does not reach the file name |
| `Article.NotePath` | src/main.ts:106 | the note path is the folder, `/`, exactly the sanitised title, and `.md`; no `/` or `\` after the folder, so the note lands directly in the folder |
| `Article.MissingTitleNote` | src/main.ts:106 | a page without a title gives the note `folder/.md` |
| `Article.LeadingForbiddenKeepsSpace` | src/main.ts:106 | a title starting with a forbidden character gives a file name starting with a space |
| `Annex.Enabled` | src/main.ts:111-113 | the pass runs exactly when `localAnnex` is on and `annexPath` is not all whitespace |
| `Annex.ExtensionAtUnique` | src/main.ts:123 | `\.[a-zA-Z0-9]+$` matches at most one position, so the leftmost match is the only one |
| `Annex.ExtensionMatch` | src/main.ts:123 | the match exists exactly when some position matches, and it is the rest of the string from that position |
| `Annex.ImageSuffix` | src/main.ts:123 | every suffix produced is a dot followed by at least one character |
| `Annex.ImageSuffixCases` | src/main.ts:118-123 | a missing alt throws; an empty alt gives `.png`; any other alt gives its regex match, and throws when there is none |
| `Annex.ImageSuffixDefaults` | src/main.ts:123 | an empty alt gives `.png`; a missing alt throws |
| `Annex.ImageSuffixOfFileName` | src/main.ts:123 | `name.ext` with `ext` made of ASCII letters and digits gives `.ext` |
| `Annex.ImageSuffixPhotoJpeg` | src/main.ts:123 | `photo.jpeg` gives `.jpeg` |
| `Annex.ImageSuffixWithoutExtension` | src/main.ts:123 | a non-empty alt with no dot, or one ending in a dot, throws |
| `Annex.Download` | src/main.ts:119-126 | a resolved download names a file under `annexPath/`, the folder used untrimmed |
| `Annex.LocalName` | src/main.ts:124 | the name is `annexPath`, `/`, then the uuid and the suffix, each readable back from its position |
| `Annex.DownloadDirectlyInFolder` | src/main.ts:123-124 | when the uuid has no `/`, no `/` follows `annexPath/` in a resolved name, so the file lies directly in the annex folder |
| `Annex.DownloadResolved` | src/main.ts:119-126 | a download resolves exactly when the GET succeeds and the suffix rule yields a suffix; its name is then `annexPath/uuid` followed by that suffix |
| `Annex.BuildMap` | src/main.ts:130 | the `Map`'s keys are exactly the entries' keys |
| `Annex.BuildMapLastWins` | src/main.ts:130 | for a repeated key, the entry that comes last gives the value |
| `Annex.EntriesCoverSources` | src/main.ts:129-133 | every image's src is a key of the map, so `pathMapping.get(src)!` is never undefined |
| `Annex.Rewrite` | src/main.ts:131-134 | each image's src becomes the name the map gives its old src; alt and every other attribute stay, and the count is kept |
| `Annex.Localize` | src/main.ts:110-134 | the pass keeps the number of images, makes no more writes than requests and no more requests than images, and leaves the images untouched when it does not complete |
| `Annex.DownloadAll` | src/main.ts:115-129 | one request per image in document order, all of them issued even after one has failed; files are written for the resolved downloads; failure exactly when some download rejects |
| `Annex.RewriteAll` | src/main.ts:131-134 | every element's src is overwritten with its mapped name; nothing else changes |
| `Annex.LocalizeImages` | src/main.ts:110-134 | the in-place pass yields the requests, files and images that `Localize` specifies |
| `Annex.LocalizeDisabled` | src/main.ts:111-113 | when switched off or the folder is blank: no request, no file, every image as it was |
| `Annex.LocalizeRequestsEveryImage` | src/main.ts:115-122 | when switched on: one request per image element, in document order, repeated URLs included |
| `Annex.LocalizeAllOrNothing` | src/main.ts:116-129 | the pass completes exactly when it is off, or when every GET succeeds and every alt yields a suffix; an incomplete pass rewrites no src |
| `Annex.LocalizeKeepsOtherAttributes` | src/main.ts:131-134 | the number and order of images are kept, and no attribute other than src changes |
| `Annex.LocalizeEnabled` | src/main.ts:116-130 | when switched on, the pass completes exactly when all downloads resolve, and it writes one file per resolved download |
| `Annex.LocalizeWritesInFolder` | src/main.ts:124-125 | every file written is named under `annexPath/`, and there are never more files than images |
| `Annex.LocalizeWritesEveryResolved` | src/main.ts:119-126 | when switched on, every image whose GET succeeds and whose alt yields a suffix gets its file written, even when another image makes the pass fail |
| `Annex.LocalizeCompletedWrites` | src/main.ts:116-129 | with localization on, when every GET succeeds and every alt yields a suffix, the pass writes one file per image, named `annexPath/uuid(k)` plus that image's suffix |
| `Annex.LocalizeSharedSource` | src/main.ts:129-134 | with localization on, when every GET succeeds and every alt yields a suffix, each image's src is the name made for the last image in document order that had the same original src |
| `Annex.LocalizePointsAtWrittenFiles` | src/main.ts:124-133 | with localization on, when every GET succeeds and every alt yields a suffix, every src names a file the pass wrote |
| `Annex.DuplicateSourceOrphansFirstFile` | src/main.ts:115-134 | two images with one URL and one alt cause two requests and two files; both images point at the second file, and the first is never referenced |
| `Plugin.SolveArticle` | src/main.ts:102-108 | the image pass runs first; the note is created at `NotePath` only if the pass completes |
| `Plugin.SubmitArticle` | src/main.ts:76-92 | a blank or missing id asks for one and requests nothing; a failed page fetch ends in the failure notice and touches no image; a failed image pass ends in the failure notice with no note; otherwise the note is saved at `NotePath` |

## Left out

- The Obsidian UI and plugin lifecycle are not modelled: `onload`, the file-menu
  entry, modal rendering and closing, and the settings tab in `src/settings.ts`
  with `loadData`/`saveData`. The settings are a `Settings` value passed in.
- HTTP (`requestUrl`) is not modelled. Each GET is an abstract success or failure
  given by a parameter. Response bodies and status codes are not modelled.
- cheerio parsing and selectors are not modelled. A page is given as its image
  elements and its title text. What happens when `div#article-root` is absent is
  a cheerio behaviour, and it is not modelled.
- The Markdown conversion (turndown with the gfm plugin and `remove('style')`) is
  not modelled. The note's content is not part of the model; only its path is.
- uuid generation is not modelled. Names come from the parameter `uuid(k)`, and
  the model assumes nothing about them being unique or free of `/`. Only
  `DuplicateSourceOrphansFirstFile` assumes two of them differ, and only
  `DownloadDirectlyInFolder` assumes one has no `/`.
- Concurrency under `Promise.all` is not modelled. Downloads run one after
  another in document order. The source writes files in completion order, and
  the model lists them in document order. Which rejection `Promise.all` reports
  is not modelled either: the source only logs it and shows one notice.
- `createBinary` is not awaited in the source. The model counts the write as
  made when the download resolves, and it does not model the write failing.
- Plugin.SubmitArticle: treats `vault.create` as always succeeding. It does not
  model the vault rejecting an existing or invalid path, which would also end in
  the failure notice.
- An image element without a `src` attribute is not modelled: `Image.src` is
  always present. Requesting an undefined URL is behaviour of the HTTP library.
- `annexPath?.` is treated as always defined, because the settings are merged
  with defaults in which `annexPath` is `""`.
