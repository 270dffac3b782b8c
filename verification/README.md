# wechat-publisher-mcp, modelled in Dafny

wechat-publisher-mcp is a tool server that publishes Markdown articles to a
WeChat Official Account and queries their publication status. This project
models its core as immutable datatypes and pure functions:

- **Validator** (`validator.dfy`) holds the request validators, the cover-path
  safety check, the sanitiser and the keyword parser. Every rule adds its own
  error, and a request is valid exactly when no rule fires.
- **MdInline, MdTables, MdPipeline and HtmlEscape** model the Markdown to WeChat
  HTML converter as a fixed chain of stages. Each regular expression of the
  converter is a hand-written scanner (`rewrite.dfy` holds the shared
  "replace every match, left to right" driver). The stages are code blocks,
  headings, emphasis, lists, quotes, links, tables, paragraphs and clean-up,
  followed by the style prefix.
- **WeChatApi** (`wechat_api.dfy`) models the platform client's decision logic:
  - the access-token lease;
  - the upload pre-checks and content type;
  - the draft, submit, preview and status outcome policies;
  - the digest.

  Every remote reply is an input value, `Reply = Answered(body) | Refused(body, message) | NoResponse(message)`.
  Every result records the list of remote calls made.
- **Publisher** (`publisher.dfy`) models the publish tool:
  - the validate, convert, resolve cover, upload, preview-or-publish, report flow;
  - the cover title, subtitle and theme derivation;
  - the svg path rewrite;
  - the success and error messages.
- **StatusTool** (`status.dfy`) models the status tool:
  - the status-code labels;
  - the structured status report and its text;
  - the failure hints;
  - the query flow.
- **Text** and **Wrappers** hold the string and option utilities the others
  share. Among them are trim, split and join, ASCII lower-casing, and the
  integer rendering with its parser.

In the model, strings are `seq<char>`, one element per Unicode scalar value.
JavaScript's `length` counts UTF-16 code units instead. The validator's length
limits therefore use `Text.Utf16Length`, which counts a character outside the
Basic Multilingual Plane as two units; on other text the two counts agree
(`Text.Utf16LengthBmp`).
The clock, the random source, the temporary directory, the file system's answers
and the converter are parameters of the tools.

The model follows the code, including where it departs from what its names suggest:
- ordered list items are wrapped in `<ul>`;
- table body cells are `<th>`;
- `author` is optional;
- preview mode goes through the preview call, not the publish call;
- publishing without a cover media id is an error.

## Model

| member | source | states |
|---|---|---|
| Validator.Report | src/utils/validator.js:98-101 | a validation result is valid exactly when its error list is empty, and it carries the errors collected |
| Validator.ValidateFilePath | src/utils/validator.js:175-220 | an empty path yields exactly the one "empty" error. Otherwise the unsupported-format, `..` and sensitive-location errors each appear exactly when their own rule holds, independently of one another |
| Validator.ValidatePublishParams | src/utils/validator.js:16-102 | an error is reported exactly when its rule fires (required fields, cover path, length bounds in UTF-16 code units, AppID prefix and length, secret length, preview OpenID presence and shape); each error appears once, in the order the rules are tested; validity means no error |
| Validator.ValidateStatusParams | src/utils/validator.js:109-148 | an error is reported exactly when its status rule fires (missing or non-numeric msgId, missing credentials, AppID prefix and length in UTF-16 code units, secret length); each error appears once, in the order the rules are tested; validity means no error |
| Validator.PublishValidIff | src/utils/validator.js:16-102 | a publish request validates exactly when it meets the independent acceptability predicate written field by field |
| Validator.FiredRuleInvalidates | src/utils/validator.js:98-101 | any single rule that fires makes the publish request invalid |
| Validator.StatusValidIff | src/utils/validator.js:109-148 | a status request validates exactly when it meets the independent status acceptability predicate |
| Validator.StatusFiredRuleInvalidates | src/utils/validator.js:144-147 | any single status rule that fires makes the status request invalid |
| Validator.MsgIdWellFormed | src/utils/validator.js:113-128 | a msgId made only of digits draws neither the "required" nor the "format" msgId error |
| Validator.AppIdWellFormed | src/utils/validator.js:74-81 | "wx" followed by 16 UTF-16 code units draws neither AppID error |
| Validator.AppIdWrongPrefix | src/utils/validator.js:74-81 | an id of 18 code units not starting with "wx" draws only the prefix error |
| Validator.AppIdTooShort | src/utils/validator.js:74-81 | "wx" followed by 15 code units draws only the length error |
| Validator.UpperCaseExtension | src/utils/validator.js:184-191 | the extension check ignores case: a `.PNG` path passes it |
| Validator.NoneSentinelRejected | src/utils/validator.js:41-51 | the cover path "none" fails the extension check, so a publish request carrying it never validates |
| Validator.ValidatePublishParamsAllowingNone | src/tools/wechat-publisher.js:77-79 | the corrected validator reports every publish error except the path errors of the "none" sentinel |
| Validator.AllowingNoneValidIff | src/tools/wechat-publisher.js:77-79 | with the sentinel, a request validates exactly when the same request without a cover path is acceptable |
| Validator.SanitizeParams | src/utils/validator.js:227-251 | each listed field is kept exactly when it is a non-empty string, and is then trimmed; the preview flag is carried over |
| Validator.SanitizeIdempotentIff | src/utils/validator.js:227-251 | sanitising twice equals sanitising once exactly when no field is a whitespace-only string |
| Validator.ParseNaturalLanguage | src/utils/validator.js:258-285 | title, author and content are set exactly when their keyword is followed by a non-empty capture, and then hold the leftmost such capture, trimmed, which is free of the stop characters. The preview flag is set (to true) exactly when a preview keyword occurs, and nothing else is set |
| Validator.LabelFieldAt | src/utils/validator.js:262-265 | when the leftmost match starts at a given place, the field is that match's capture, trimmed |
| Validator.ParseLabelledRequest | src/utils/validator.js:258-285 | a request written as "标题：" title, a newline, "内容：" content is read back as exactly that title and content, with no author |
| HtmlEscape.EscapeHtml | src/services/MarkdownConverter.js:323-332 | the output has no `<`, `>`, `"` or `'`; input free of the five special characters comes back unchanged |
| HtmlEscape.UnescapeEscapeHtml | src/services/MarkdownConverter.js:323-332 | unescaping the escaped text gives back the original: nothing is lost or escaped twice |
| HtmlEscape.EscapeXmlIsSinglePass | src/tools/wechat-publisher.js:445-452 | the five chained replacements, `&` first, equal a single pass that maps each character to its entity |
| HtmlEscape.EscapeXmlProperties | src/tools/wechat-publisher.js:445-452 | the escaped text has no `<`, `>`, `"` or `'`, and unescaping it returns the original |
| MdInline.Language | src/services/MarkdownConverter.js:55-56 | the `data-language` value is the fence tag, or "text" when the tag is absent |
| MdInline.CodeBody | src/services/MarkdownConverter.js:57 | the code body carries no raw `<`, `>`, `"` or `'`, and unescaping it gives back exactly the trimmed code |
| MdInline.FencedBlock | src/services/MarkdownConverter.js:55-58 | a fence with a word tag, a newline, code free of backticks-triples and a closing fence is consumed exactly and rendered from that tag and code |
| MdInline.HeadingLevel | src/services/MarkdownConverter.js:69-83 | a line of n hashes, a space and text becomes the level-n heading of that text, and no other level matches it |
| MdInline.DelimitedSpan | src/services/MarkdownConverter.js:88-99 | a delimiter, one line of text without the delimiter, and the delimiter again become the wrapped text, ending right after the closing delimiter |
| MdInline.OrderedItemLine | src/services/MarkdownConverter.js:106 | a line of digits, a dot, a space and text becomes one list item holding exactly that text |
| MdInline.BulletItemLine | src/services/MarkdownConverter.js:109 | a line starting with `-`, `*` or `+` and a space becomes one list item holding the rest of the line |
| MdInline.ListRunWrapped | src/services/MarkdownConverter.js:112-114 | a run of items separated only by whitespace is wrapped, as written, in one `<ul>` that ends where no further item follows |
| MdInline.QuoteLine | src/services/MarkdownConverter.js:122-125 | a line starting with `>` becomes a blockquote of the text after the optional blanks |
| MdInline.SafeUrl | src/services/MarkdownConverter.js:131-139 | the link target is the trimmed URL, or `#` exactly when the trimmed URL starts with `javascript:` in any case; the result is never a script URL |
| MdInline.LinkConverted | src/services/MarkdownConverter.js:130-143 | `[text](url)` with no `]` in the text and no `)` in the URL is consumed exactly and rendered as an anchor of that text and URL |
| MdTables.Cells | src/services/MarkdownConverter.js:196 | the cells of a row are non-empty, trimmed and free of `|` |
| MdTables.RowLineCells | src/services/MarkdownConverter.js:196 | writing cells as a `|`-row and splitting it again gives the same cells back |
| MdTables.ParseTable | src/services/MarkdownConverter.js:188-201 | fewer than two lines, or a separator line without `-`, is no table. Otherwise the headers are the first line's cells, and each line after the separator gives exactly one body row of its cells, in order |
| MdTables.Background | src/services/MarkdownConverter.js:216 | body row backgrounds alternate: `#ffffff` exactly for even indexes, `#f8f9fa` exactly for odd ones |
| MdTables.ParseTableLines | src/services/MarkdownConverter.js:188-226 | every well-formed table written as lines is read back as the same table |
| MdTables.FlattenSegments | src/services/MarkdownConverter.js:155-180 | splitting the trimmed lines into maximal `|` runs and plain lines loses and reorders nothing |
| MdTables.ConvertLinesWith | src/services/MarkdownConverter.js:148-183 | the line-by-line state machine, including the run left open at end of input, produces exactly the segment-wise rendering of the trimmed lines |
| MdTables.ConvertTablesLoop | src/services/MarkdownConverter.js:148-183 | the table pass equals its functional definition |
| MdTables.NoBarConvert | src/services/MarkdownConverter.js:150-182 | text without `|` only has each of its lines trimmed |
| MdTables.TableConverted | src/services/MarkdownConverter.js:148-226 | the lines of a well-formed table are replaced by exactly one rendered table |
| MdPipeline.OneParagraph | src/services/MarkdownConverter.js:231-239 | text with no blank line becomes a single paragraph around the unchanged text |
| MdPipeline.BlankLineBreaks | src/services/MarkdownConverter.js:233 | a newline, blanks and a newline form one paragraph break that consumes the whole blank gap |
| MdPipeline.EmptyParagraph | src/services/MarkdownConverter.js:246 | a paragraph holding only whitespace is removed entirely |
| MdPipeline.UnwrapBlock | src/services/MarkdownConverter.js:252-257 | a paragraph whose only content is one heading, list, quote, pre or table element is replaced by that content |
| MdPipeline.CollapseRegex | src/services/MarkdownConverter.js:249 | replacing each whitespace run by one space equals the collapse function, which leaves no two adjacent whitespace characters |
| MdPipeline.CleanupPlainSpaces | src/services/MarkdownConverter.js:244-260 | after clean-up, the only whitespace character left is the plain space |
| MdPipeline.AddStyles | src/services/MarkdownConverter.js:265-318 | the styled page is the style block followed by the unchanged body |
| MdPipeline.ConvertWith | src/services/MarkdownConverter.js:12-48 | missing or empty Markdown gives the empty string; any other input gives the style block followed by the converted body |
| MdPipeline.ConvertedBodyPlainSpaces | src/services/MarkdownConverter.js:12-48 | the converted body contains no whitespace other than plain spaces |
| WeChatApi.ExpiryAfter | src/services/WeChatAPI.js:48 | a token lease ends 600 seconds before the lifetime the platform announced, counted in milliseconds from now |
| WeChatApi.GetAccessToken | src/services/WeChatAPI.js:27-60 | no remote call is made exactly when a token is cached and still valid. A fresh fetch succeeds exactly when the reply carries a token, and then caches it with its expiry; a failure leaves the cache alone |
| WeChatApi.TokenLeaseReused | src/services/WeChatAPI.js:31-48 | a token fetched at one time is served from the cache, without a remote call, at any later time before its expiry |
| WeChatApi.TokenLeaseExpires | src/services/WeChatAPI.js:31-48 | after the expiry a new token is fetched |
| WeChatApi.TokenWithoutLifetimeNeverReused | src/services/WeChatAPI.js:31-48 | a token announced without a lifetime is never reused |
| WeChatApi.BasenamePngSuffix | src/services/WeChatAPI.js:90-91 | for a path not ending in `/`, its basename ends with `.png` exactly when the path does |
| WeChatApi.UploadCoverImage | src/services/WeChatAPI.js:67-135 | an unsafe path is refused with the joined path errors before any remote call; the upload is sent exactly when the path is safe, a token was obtained and the file is a regular file of at most 1 MiB; success returns the non-empty media id from the reply |
| WeChatApi.UploadContentType | src/services/WeChatAPI.js:90-91 | a safe cover is sent as `image/png` exactly when its path ends in lower-case `.png` |
| WeChatApi.UpperCasePngSentAsJpeg | src/services/WeChatAPI.js:90-91 | a `.PNG` cover passes validation but is sent labelled `image/jpeg` |
| WeChatApi.SubmitResult | src/services/WeChatAPI.js:208-240 | a submit with errcode 0 yields the publish id; any other errcode or a transport failure still counts as success with the media id and no publish id, and the message says why |
| WeChatApi.PublishArticle | src/services/WeChatAPI.js:142-248 | a missing cover media id or a refused draft is an error and nothing is submitted. Once the draft is saved, preview (flag and OpenID both given) succeeds exactly when the preview is accepted, with the preview message and no submit; otherwise the draft is submitted and the outcome is the submit result for the draft's media id |
| WeChatApi.SubmitOutcomeIsSoft | src/services/WeChatAPI.js:208-240 | once the draft is saved, publishing succeeds whatever the submit reply; a publish id comes back exactly when the submit reply has errcode 0 and carries one |
| WeChatApi.PreviewArticle | src/services/WeChatAPI.js:255-305 | preview succeeds exactly when the token, the news upload and the preview call all succeed; it never drafts or publishes |
| WeChatApi.GetPublishStatus | src/services/WeChatAPI.js:312-330 | after a token the status query is made once; it succeeds exactly when the reply has errcode 0, and then returns that reply's body |
| WeChatApi.DigestText | src/services/WeChatAPI.js:337-349 | the stripped text holds no complete `<...>` tag (no `<` with a `>` after it), no `#`, `*` or backtick, no doubled whitespace, and no leading or trailing whitespace; every character of it other than a space comes from the content |
| WeChatApi.DigestOfTaggedText | src/services/WeChatAPI.js:337-351 | HTML made of one leading tag followed by plain text digests to that text, trimmed: the tag is removed and the text kept, and it is the whole digest when at most 60 long |
| WeChatApi.DigestOfPlainText | src/services/WeChatAPI.js:337-351 | text without tags or marks, whose whitespace is already single spaces, is only trimmed, and is its own digest when at most 60 long |
| WeChatApi.TagPassLeavesNoTag | src/services/WeChatAPI.js:341 | after removing tags no complete `<...>` tag is left |
| WeChatApi.ExtractDigest | src/services/WeChatAPI.js:337-351 | the digest is at most 63 characters with no complete tag, no marks and no doubled whitespace: the stripped text itself when at most 60 long, else its first 60 characters and "..." |
| WeChatApi.DigestUnchangedIff | src/services/WeChatAPI.js:350 | the digest equals the stripped text exactly when that text is at most 60 long (or already is 60 characters plus "...") |
| Publisher.ShortTitle | src/tools/wechat-publisher.js:232-233 | the cover title has no `#`, `*` or backtick and at most 23 characters: the cleaned title when at most 20 long, else its first 20 characters and "..." |
| Publisher.ShortTitleIdempotent | src/tools/wechat-publisher.js:232-233 | shortening a short title changes nothing |
| Publisher.FullSubtitle | src/tools/wechat-publisher.js:236-248 | the subtitle is the first line of cleaned length strictly between 10 and 50 code units without "http", and the default exactly when there is no such line |
| Publisher.Subtitle | src/tools/wechat-publisher.js:279 | the subtitle handed to the renderer is a non-empty prefix of at most 30 characters, the whole subtitle exactly when it fits |
| Publisher.ThemeIndex | src/tools/wechat-publisher.js:261-267 | the theme is the first keyword group the title mentions, else the bucket of the random number, and always one of the six themes |
| Publisher.KeywordThemeIgnoresRoll | src/tools/wechat-publisher.js:261-266 | when a keyword matches, the random number does not influence the theme, which is one of the first five |
| Publisher.RollReachesEveryTheme | src/tools/wechat-publisher.js:267 | without a keyword match, every theme is reachable by some random number |
| Publisher.PlanCover | src/tools/wechat-publisher.js:226-274 | the planned cover carries the shortened title, the cut subtitle and the theme chosen from the title and random number, with their bounds, and the temporary `.png` path |
| Publisher.SvgPath | src/tools/wechat-publisher.js:432 | a trailing `.png` is replaced by `.svg` and nothing else changes; other paths are left alone |
| Publisher.SvgFallbackNamesAnotherFile | src/tools/wechat-publisher.js:272-285 | the vector fallback writes a different file from the `.png` path that is used afterwards |
| Publisher.TempCoverUnderVarRefused | src/tools/wechat-publisher.js:272-274 | a generated cover under a temporary directory containing `/var/` fails the path check |
| Publisher.ReportLines | src/tools/wechat-publisher.js:183-218 | the success report always opens with the outcome, title and author lines and closes with the time line and the returned message or the default trailer |
| Publisher.ReportOptionalLines | src/tools/wechat-publisher.js:195-205 | the publish id line, message id line and cover line appear exactly when the publish id, message id and cover media id are present |
| Publisher.ErrorAdvice | src/tools/wechat-publisher.js:457-488 | credential advice appears exactly when the message mentions `access_token`, IP advice exactly when it mentions `ip`, cover advice exactly when it mentions `media` or `图`; the failure line opens and the general advice closes, in a fixed order |
| Publisher.WithEnvironment | src/tools/wechat-publisher.js:20-24 | credentials missing from the request are taken from the environment and nothing else changes |
| Publisher.ResolveCover | src/tools/wechat-publisher.js:73-89 | "none" means no cover, an explicit path is used as given, and a missing path uses the generated file exactly when rendering succeeded |
| Publisher.UploadStage | src/tools/wechat-publisher.js:91-111 | without a cover nothing is uploaded; a media id implies an upload was sent; the temporary file is removed exactly when the upload succeeded and the cover was not supplied by the caller |
| Publisher.ArticleStage | src/tools/wechat-publisher.js:114-137 | preview mode only previews and never drafts or publishes; publish mode never previews and cannot succeed without a cover media id |
| Publisher.Publish | src/tools/wechat-publisher.js:16-178 | an invalid request is answered with the joined validation errors before any conversion or remote call; a valid one is converted and carried through the stages |
| Publisher.PublishCorrected | src/tools/wechat-publisher.js:44-89 | with "none" read as "no cover" at validation, the same flow; it is `Publish` on every request whose cover is not "none" |
| Publisher.NoneCoverRefused | src/tools/wechat-publisher.js:44-79 | as written, a "none" cover draws the unsupported-format error and the request is refused before conversion, so the "none" branch is never reached |
| Publisher.PreviewOpenIdPresent | src/tools/wechat-publisher.js:115-118 | once validation passes, preview mode always has an OpenID, so the explicit check cannot fire |
| Publisher.OneArticleCall | src/tools/wechat-publisher.js:114-137 | an accepted request makes exactly the preview calls in preview mode and exactly the publish calls otherwise |
| Publisher.NoneCoverSkipsUpload | src/tools/wechat-publisher.js:77-79 | in the corrected flow the "none" sentinel is converted but plans, generates and uploads nothing, and a publish without cover is then refused |
| Publisher.ExplicitCoverUsedAsIs | src/tools/wechat-publisher.js:91-106 | an explicit cover path is uploaded as given and never deleted |
| Publisher.MissingCoverGenerated | src/tools/wechat-publisher.js:80-106 | a missing cover is planned from the title, content and random number, and the temporary file is deleted exactly when it was uploaded |
| Publisher.UploadFailureNotFatal | src/tools/wechat-publisher.js:91-110 | a failed upload leaves no media id and no deletion, and the article step still runs |
| Publisher.PublishedHasCover | src/tools/wechat-publisher.js:114-160 | a reported publish (not preview) always uploaded a cover and reports its cover line |
| Publisher.GeneratedCoverUnderVarFails | src/tools/wechat-publisher.js:272-274 | with a temporary directory under `/var/`, a generated cover is never uploaded and a publish is refused |
| StatusTool.StatusText | src/tools/wechat-status.js:174-184 | codes 0 to 4 map to their five labels; any other code gives the unknown label whose parenthesised number parses back to the code |
| StatusTool.StateCodeRoundTrip | src/tools/wechat-status.js:174-184 | every label decodes back to the status code it was made from, so distinct codes get distinct labels |
| StatusTool.Count | src/tools/wechat-status.js:116-128 | read and like counts default to 0; comment and share counts are shown exactly when positive |
| StatusTool.Describe | src/tools/wechat-status.js:103-131 | title, author, time, statistics and link appear exactly when the article's field is truthy, each with that field's value |
| StatusTool.BuildStatusReport | src/tools/wechat-status.js:87-140 | the report names the msgId or "未知", has a status exactly when the reply has one, and describes the first article or says details are pending exactly when there is none |
| StatusTool.StatusMessageOpening | src/tools/wechat-status.js:87-91 | the status text always opens with the heading and the msgId line |
| StatusTool.ErrorHints | src/tools/wechat-status.js:145-169 | authentication hints appear exactly when the message mentions `access_token`, msgId hints exactly when it mentions `msgId` or `not found`; the failure line opens and the general hints close |
| StatusTool.RunQuery | src/tools/wechat-status.js:15-82 | an invalid query is answered with the joined validation errors and no remote call; a valid one queries the status once and reports the reply or the failure hints |
| StatusTool.QueryCallsIff | src/tools/wechat-status.js:29-46 | a query makes a remote call exactly when its parameters are acceptable |
| StatusTool.QueryFetchesTokenFirst | src/tools/wechat-status.js:46 | a query makes no call, a token fetch, or a token fetch followed by one status query |
| StatusTool.ReportedIff | src/tools/wechat-status.js:15-82 | a report is produced exactly when the parameters are acceptable, a token is obtained and the platform answers with errcode 0 |
| StatusTool.ReportNamesQuery | src/tools/wechat-status.js:34-56 | a report always names the queried msgId, which is all digits, and describes the platform's answer |
| Text.Utf16LengthBmp | src/utils/validator.js:62-86 | the UTF-16 length equals the number of characters exactly when every character lies in the Basic Multilingual Plane |
| Text.JoinSplit | src/services/MarkdownConverter.js:150 | joining the pieces of a split with the separator restores the text |
| Text.ParseIntToString | src/tools/wechat-status.js:182 | the decimal rendering of an integer parses back to that integer |

## Left out

- File system, HTTP and multipart uploads are out: `fs` stat, read, write and unlink and the axios calls are modelled as reply and stat values handed to the functions, and the remote calls made are recorded as a list.
- Canvas drawing, the raster/vector capability probe and the SVG template text (`createPngCover`, most of `createSvgCover`) are out. Only the derived title, subtitle, theme and paths are modelled; rendering success is a boolean of the environment.
- The generated-cover step stats the `.png` path even when the vector fallback wrote an `.svg` file. The model keeps the `.png` path and treats a failed render as "no cover" (Publisher.SvgFallbackNamesAnotherFile shows the two names differ).
- `Date.now` and the execution time are parameters (`now`, `timestamp`, elapsed milliseconds). The whole publish flow uses one `now`.
- `formatTimestamp` and its `toLocaleString` call depend on the host locale. They are a function parameter `format` of the status report.
- `Math.random` is a real number in [0, 1) passed in.
- `os.tmpdir()` is a parameter, and `path.join` is modelled as concatenation with `/` without normalisation.
- The converter is a parameter of Publisher.Publish. MdPipeline.ConvertToWeChatHtml is the function to pass.
- One token reply serves every token fetch of a tool run. Each run builds a fresh client with an empty cache, as the tools do.
- The `typeof` checks of the validator (src/utils/validator.js:37-59) cannot fire: parameters are typed after the server's schema (strings as `Option<string>`, the preview flag as `Option<bool>`).
- toLowerCase is modelled as ASCII lower-casing. It is exact for the two places it matters: the `javascript:` prefix and the image extension suffix, both pure ASCII.
- Emoji in message texts are written as single characters, not as UTF-16 surrogate pairs. No property measures their length.
- Publisher.ShortTitle: cuts at 20 characters, not UTF-16 code units. This agrees with the source on Basic Multilingual Plane text; where JavaScript's cut would split a surrogate pair, the model keeps the whole character.
- Publisher.Subtitle: cuts at 30 characters, not code units, for the same reason and with the same effect.
- WeChatApi.ExtractDigest: cuts at 60 characters, not code units, for the same reason and with the same effect.
- WeChatApi.DigestText: states that no complete tag survives, but not that the CSS text inside a `<style>` element is gone; the style pass is modelled (`StyleBlockAt`) and no property about its deleted text is proved.
- The basename used for the upload file name splits on `/` only (POSIX paths).
- Logging, the MCP server registration, the process entry point and the resize script are not part of this model.
- JavaScript numbers are modelled as unbounded integers; no counter or timestamp reaches the range where doubles lose precision.
- `articleUrl` in the publish report is never set by the client and is left out.
- Publisher.ReportLines: the success report's contracts speak of its tagged lines, and the status report's of its fields. Publisher.RenderReportLine and StatusTool.StatusMessage render them to the source's exact texts, but no contract is stated about the joined string.
- MdPipeline.CollapseRegex: the "no two adjacent whitespace characters" property is proved for the collapse step only. The unwrap steps run after it and can bring a space before `<p>` next to one inside it, so the final HTML is only shown to hold plain spaces (MdPipeline.CleanupPlainSpaces).
- Validator.SanitizeIdempotentIff: sanitising is not idempotent in general, because a whitespace-only field is kept as an empty string; the lemma states exactly when it is.
- MdInline.FencedBlock, MdInline.HeadingLevel, MdInline.DelimitedSpan, MdInline.OrderedItemLine, MdInline.BulletItemLine, MdInline.QuoteLine, MdInline.LinkConverted, MdInline.ListRunWrapped and MdPipeline.UnwrapBlock describe the scanners on inputs of the documented shape; on other inputs the scanners' behaviour is defined but not characterised.

## Findings

| source | as written | input that shows it | evidently intended | confidence | as-written member | corrected member |
|---|---|---|---|---|---|---|
| src/utils/validator.js:41-51 | a cover path is always checked as a file path, including the sentinel "none" that src/tools/wechat-publisher.js:77-79 treats as "no cover" | a publish request with coverImagePath "none": validation reports an unsupported format and publishing stops | "none" skips the path check and means no cover | not executed | Publisher.NoneCoverRefused | Publisher.PublishCorrected |

Two further behaviours are modelled as written and proved as stated, without
being corrected:
- An upper-case `.PNG` cover passes validation but is uploaded as `image/jpeg`
  (WeChatApi.UpperCasePngSentAsJpeg).
- When the temporary directory contains `/var/`, as on macOS, every generated
  cover fails the upload path check (Publisher.GeneratedCoverUnderVarFails).
