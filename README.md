# Portfolio items: service, admin console and site script

A Dafny model of the moving parts of a small portfolio site:

- **The item service** (`infrastructure/functions/portfolio/handler.js`): a
  Lambda behind API Gateway that lists, creates, edits and deletes portfolio
  items in a DynamoDB table and signs S3 upload URLs for their images.
  - Module `Cors` covers the allow-list and the origin the service answers with.
  - Module `Sanitize` covers the input sanitisers: free text, links, tags, storage keys and upload file names.
  - Module `Items` covers the record a create builds and the updates an edit applies. It also covers the numbered SET expression the edit loop builds, the image URL added on the way out, and the upload key and public URL.
  - Module `Service` covers the admin-key check, the body parser, routing and the error responses. Its class `ItemService` holds the configuration, the table (a map from id to record) and the log of S3 deletions. Its methods are the handler and the operations behind each route.
- **The admin console** (`src/admin.js`), module `AdminConsole`:
  - the tag field and form validation, and the body a submit sends;
  - the request headers and the image URL the console shows;
  - the class `Console`, holding the state the page keeps: the item being edited, the loaded list, the form, the status line, whether the form is disabled, and the requests sent.
- **The site script** (`src/app.js`), module `Site`:
  - marking the navigation link of the current page, in place over an array of links;
  - the visitor counter: the once-a-day hit decision, the count read from the reply, and the day stamp in local storage (class `Counter`).

Shared pieces live in `js.dfy` (module `Js`) and `wrappers.dfy` (`Option`, `Result`):
- a JSON-like `Value` type with JavaScript truthiness;
- `trim`, `split`/`join` and ASCII lower-casing;
- decimal and hex rendering.

The network, clocks, the UUID generator, random bytes and the S3 signer are
parameters of the methods that use them. The table and local storage are fields of the classes.

## Model

| member | source | states |
|---|---|---|
| Cors.AllowedOriginsEntries | infrastructure/functions/portfolio/handler.js:18-21 | every allow-list entry is non-blank, trimmed and free of ',' |
| Cors.AllowedOriginsDefault | infrastructure/functions/portfolio/handler.js:15-18 | an unset or empty ALLOWED_ORIGIN gives the list ['*'] |
| Cors.PickOrigin | infrastructure/functions/portfolio/handler.js:23-27 | a listed '*' wins; no request origin gives the first entry or '*'; a listed origin is echoed; an unlisted one gets the first entry, or undefined for an empty list |
| Cors.AllowOriginHeader | infrastructure/functions/portfolio/handler.js:34 | the header is never empty: the origin when there is one, else '*' |
| Cors.HeaderOriginAllowed | infrastructure/functions/portfolio/handler.js:18-27 | the header names '*' or a listed origin; without a wildcard it echoes the request origin exactly when that origin is listed |
| Service.ResponseOriginAllowed | infrastructure/functions/portfolio/handler.js:261 | every response of the handler carries an allowed origin in its CORS header |
| Sanitize.SanitizeString | infrastructure/functions/portfolio/handler.js:55-60 | undefined exactly for null/undefined; '' exactly for whitespace; otherwise a prefix of the trimmed text, at most maxLength (500 when 0) long, and all of it when shorter |
| Sanitize.SanitizeUrl | infrastructure/functions/portfolio/handler.js:62-68 | a value is kept exactly when it is truthy and its trimmed text starts with http:// or https:// in any case; the result keeps the scheme, is a prefix of the trimmed text, is at most 500 long, and is the whole trimmed text when that is shorter than 500 |
| Sanitize.SanitizeTagIsTag | infrastructure/functions/portfolio/handler.js:81-86 | a sanitised tag is '' or 1 to 40 characters of [a-z0-9-] |
| Sanitize.SanitizeTagKeepsTag | infrastructure/functions/portfolio/handler.js:81-86 | a well-formed tag comes back unchanged |
| Sanitize.SanitizeTagIdempotent | infrastructure/functions/portfolio/handler.js:81-86 | sanitising a sanitised tag changes nothing |
| Sanitize.SanitizeTagsAreTags | infrastructure/functions/portfolio/handler.js:73 | the filtered list holds only well-formed, non-empty tags |
| Sanitize.NormalizeTagsAreTags | infrastructure/functions/portfolio/handler.js:70-79 | a falsy value gives []; an array or a comma list gives only well-formed tags |
| Sanitize.SanitizeTagsKeepsTags | infrastructure/functions/portfolio/handler.js:73 | an array of well-formed tags is kept as it is, in order |
| Sanitize.NormalizeTagsIdempotent | infrastructure/functions/portfolio/handler.js:70-86 | normalising the stored tag list again gives the same list |
| Sanitize.NormalizeTagsExample | infrastructure/functions/portfolio/handler.js:75-78 | 'Node.js, CLI ' normalises to ['nodejs', 'cli'] |
| Sanitize.SanitizeKey | infrastructure/functions/portfolio/handler.js:88-92 | null/undefined pass through; otherwise the trimmed text minus exactly its leading run of '/', so the result never starts with '/' |
| Sanitize.AfterLast | infrastructure/functions/portfolio/handler.js:230-231 | the suffix after the last separator holds no separator, and is preceded by one when shorter than the input |
| Sanitize.ExtName | infrastructure/functions/portfolio/handler.js:230 | the extension path.extname gives is '' or starts with its only '.', and is a proper suffix of the last segment |
| Sanitize.BaseName | infrastructure/functions/portfolio/handler.js:231 | path.basename(p, ext) is the last segment, minus ext when the segment ends with it and is longer |
| Sanitize.CleanBaseSafe | infrastructure/functions/portfolio/handler.js:232 | the cleaned stem is non-empty, lower-case [a-z0-9-], with no doubled, leading or trailing '-' |
| Sanitize.CleanBaseKeepsSafeBase | infrastructure/functions/portfolio/handler.js:232 | cleaning an already safe stem changes nothing |
| Sanitize.SanitizeFilenameShape | infrastructure/functions/portfolio/handler.js:229-234 | the safe name is a safe stem followed by the lower-cased extension cut to 10 characters |
| Sanitize.SanitizeFilenameNoSlash | infrastructure/functions/portfolio/handler.js:229-234 | a safe name never contains '/' |
| Sanitize.SanitizeFilenameShortExt | infrastructure/functions/portfolio/handler.js:230-232 | with an extension of at most 10 characters the stem is the last segment without it |
| Sanitize.SanitizeFilenameLongExt | infrastructure/functions/portfolio/handler.js:230-232 | with a longer extension the whole last segment is cleaned as the stem |
| Sanitize.SanitizeFilenameTwoWords | infrastructure/functions/portfolio/handler.js:229-234 | 'A B.X' with alphanumeric words gives 'a-b.x', lower-cased |
| Items.SetField | infrastructure/functions/portfolio/handler.js:187-188 | writing one attribute changes that attribute and no other |
| Items.SanitizedOrElse | infrastructure/functions/portfolio/handler.js:134-140 | `sanitizeString(v) \|\| fallback` is the fallback exactly for blank or missing text |
| Items.TitleValue | infrastructure/functions/portfolio/handler.js:134 | a stored title is never blank; a blank or missing one becomes 'Untitled project' |
| Items.SummaryValue | infrastructure/functions/portfolio/handler.js:135 | the stored summary is '' exactly when the supplied one is blank or missing |
| Items.ImageKeyValue | infrastructure/functions/portfolio/handler.js:139 | a stored image key is null or text without a leading '/' |
| Items.FeaturedValue | infrastructure/functions/portfolio/handler.js:138 | featured is stored as the truth value of what was supplied |
| Items.ImageAltValue | infrastructure/functions/portfolio/handler.js:140 | a blank image description is stored as null |
| Items.ItemOfSpec | infrastructure/functions/portfolio/handler.js:132-143 | a new record has the fresh id, a non-blank title ('Untitled project' for a blank one), well-formed tags, a boolean featured, a stored-form or null image key, a null alt when blank, and createdAt and updatedAt both now |
| Items.NewItemSpec | infrastructure/functions/portfolio/handler.js:130-147 | a null body throws; a blank or missing summary is refused with 400 'Summary is required.'; any other body gives the record |
| Items.StoredTags | infrastructure/functions/portfolio/handler.js:137 | stored tags are an array of well-formed tags |
| Items.PresentKeys | infrastructure/functions/portfolio/handler.js:162-172 | the fields an edit collects are exactly the supplied ones |
| Items.PresentDistinct | infrastructure/functions/portfolio/handler.js:162-172 | each field is collected at most once |
| Items.UpdatesOfSpec | infrastructure/functions/portfolio/handler.js:157-176 | a null body throws; a supplied blank summary gives 400; no supplied field gives 400 'No updates provided'; otherwise the updates hold each supplied updatable field exactly once, with its sanitised value |
| Items.UpdatesOfAccepts | infrastructure/functions/portfolio/handler.js:162-176 | a body that supplies some field and no blank summary is accepted |
| Items.OverlaySpec | infrastructure/functions/portfolio/handler.js:192-199 | applying updates with distinct fields sets each to its value and leaves the others |
| Items.BuildUpdateExpression | infrastructure/functions/portfolio/handler.js:178-190 | the loop yields the expression `SET #f1 = :v1, …, #updatedAt = :updatedAt` and the names and values maps of the numbered updates |
| Items.PlaceholdersDistinct | infrastructure/functions/portfolio/handler.js:185-186 | placeholders of different updates differ, and none clashes with #updatedAt/:updatedAt |
| Items.AssignmentsDistinct | infrastructure/functions/portfolio/handler.js:189 | the expression holds one assignment per update, all different |
| Items.ExprNamesSpec | infrastructure/functions/portfolio/handler.js:179-187 | the names map has one key per update plus #updatedAt; #fi maps to the i-th field |
| Items.ExprValuesSpec | infrastructure/functions/portfolio/handler.js:180-188 | the values map has one key per update plus :updatedAt; :vi maps to the i-th value, :updatedAt to now |
| Items.UpdateExpressionMeaning | infrastructure/functions/portfolio/handler.js:192-199 | carrying out the SET expression with its maps gives the row with the updates applied and updatedAt set to now |
| Items.MapItemSpec | infrastructure/functions/portfolio/handler.js:121-128 | mapItem changes only imageUrl. It sets it exactly when a media base is set, there is an image key and no image URL. It throws only on a non-text image key |
| Items.MapItemIdempotent | infrastructure/functions/portfolio/handler.js:121-128 | mapping twice is mapping once |
| Items.MediaUrlSeam | infrastructure/functions/portfolio/handler.js:125 | exactly one '/' joins the base without its trailing slashes and the key without its leading slashes |
| Items.CreateUploadUrl | infrastructure/functions/portfolio/handler.js:236-258 | missing id gives 400 first, then a missing filename gives 400; a non-text filename throws; otherwise the key, the signing parameters (content type defaulting to octet-stream, 300 s, public-read) and the public URL |
| Items.UploadKeyShape | infrastructure/functions/portfolio/handler.js:240-243 | the key is the item's folder under the prefix, then a leaf with no '/' |
| Items.PublicUrlEndsWithKey | infrastructure/functions/portfolio/handler.js:253-255 | the public URL ends with '/' and the object key |
| Service.AuthorizedSpec | infrastructure/functions/portfolio/handler.js:94-101 | no key lets everything in; a presented key padded with blanks matches; a key with surrounding blanks locks everyone out |
| Service.PresentedKeyPrefersLowerCase | infrastructure/functions/portfolio/handler.js:96 | the x-admin-key header wins, X-Admin-Key is read only when it is missing or empty |
| Service.ParseBody | infrastructure/functions/portfolio/handler.js:43-53 | a falsy body is {}; a text body is parsed or refused with 400 'Invalid JSON body'; any other body is taken as it is |
| Service.RouteOfSpec | infrastructure/functions/portfolio/handler.js:263-307 | OPTIONS is a preflight whatever the path; every route that writes is admin-only; unknown methods find no route |
| Service.Fail | infrastructure/functions/portfolio/handler.js:308-314 | an HttpError answers with its status and message, any other error with 500 'Internal server error'; the CORS headers are kept |
| Service.StoredRowMaps | infrastructure/functions/portfolio/handler.js:121-128 | mapItem never throws on a row the service wrote |
| Service.EditedSpec | infrastructure/functions/portfolio/handler.js:157-199 | an edit sets exactly the supplied fields to their sanitised values and updatedAt to now, and leaves every other attribute |
| Service.EditedStored | infrastructure/functions/portfolio/handler.js:192-199 | an edited stored row is still a stored row |
| Service.ItemService.constructor | infrastructure/functions/portfolio/handler.js:9-21 | configuration read, allow-list built, table and deletion log empty |
| Service.ItemService.ListItems | infrastructure/functions/portfolio/handler.js:110-119 | each stored row is listed once, mapped |
| Service.ItemService.CreateItem | infrastructure/functions/portfolio/handler.js:130-155 | a refused body writes nothing; otherwise the record is put under the fresh id and returned mapped |
| Service.ItemService.UpsertItem | infrastructure/functions/portfolio/handler.js:157-202 | as written: a missing id or refused body writes nothing, otherwise the row is written whether or not it existed |
| Service.ItemService.UpdateItem | infrastructure/functions/portfolio/handler.js:157-203 | as intended: also an id without a row gives 404 'Item not found' and writes nothing; a stored row is edited and returned mapped |
| Service.ItemService.Store | infrastructure/functions/portfolio/handler.js:178-199 | the table gets the existing row with the SET expression carried out, and nothing else changes |
| Service.ItemService.DeleteItem | infrastructure/functions/portfolio/handler.js:205-227 | missing id gives 400, unknown id gives 404, both writing nothing; otherwise the row is removed and its image key, if any, is logged for deletion |
| Service.ItemService.Handle | infrastructure/functions/portfolio/handler.js:260-315 | every response carries the CORS headers; preflight 200, unknown route 404; an unauthorised write is refused with 401 before the body is read or the table touched; reads and uploads change nothing; each write route answers as its operation does, and PUT runs updateItem as written, so an unknown id is upserted and answered 200 |
| Service.UpsertOfMissingId | infrastructure/functions/portfolio/handler.js:192-201 | the row the upsert stores for an unknown id carries the id and updatedAt but no createdAt |
| AdminConsole.NormaliseTagsEntries | src/admin.js:49-52 | every tag read from the field is non-blank, trimmed and free of ',' |
| AdminConsole.NormaliseTagsRoundTrip | src/admin.js:49-52 | tags joined with ', ' (as setEditing fills the field) read back as the same tags |
| AdminConsole.NormaliseTagsIdempotent | src/admin.js:49-52 | reading the field again after writing it back changes nothing |
| AdminConsole.BuildImageUrlSpec | src/admin.js:65-73 | an image is shown exactly when the item has an image URL or key; the URL wins; otherwise the key, as `<media base>/<key>` when a media base is set; '' when there is neither |
| AdminConsole.ImageUrlAgreesWithService | src/admin.js:65-73 | with the same media base the console shows the URL the service's mapItem adds |
| AdminConsole.GetHeaders | src/admin.js:191-196 | the headers hold the JSON content type exactly when asked and the admin key exactly when one is set, and nothing else |
| AdminConsole.ConsoleAuthorized | src/admin.js:191-196 | the service lets the console's requests through exactly when its key is unset or equal to the console's (a key without surrounding blanks) |
| AdminConsole.SubmitPayloadSpec | src/admin.js:302-314 | a submit is refused exactly when the title or summary is blank; otherwise the body carries the trimmed title, summary and link (undefined when empty), the tags and featured |
| AdminConsole.SubmitPayloadAccepted | src/admin.js:302-314 | the service never refuses a body the console sends, as a create or as an edit |
| AdminConsole.EditFormRoundTrip | src/admin.js:174-178 | opening a stored item and saving it unchanged sends back its title, summary, tags and featured flag |
| AdminConsole.FindSpec | src/admin.js:329 | find gives the first item with the id, and nothing exactly when none has it |
| AdminConsole.Console.constructor | src/admin.js:2-4 | bases trimmed without trailing '/'; create mode, empty list, form enabled |
| AdminConsole.Console.SetEditing | src/admin.js:159-189 | null switches to create mode and the empty form; an item fills the form from the item and sets the edited id |
| AdminConsole.Console.LoadItems | src/admin.js:198-231 | without an API base nothing is sent; otherwise one list request, and the list replaced on success or the error shown |
| AdminConsole.Console.Submit | src/admin.js:296-314 | a missing API base or blank title/summary shows the error and changes nothing else |
| AdminConsole.Console.Save | src/admin.js:317-352 | the update (when editing) or create is sent while disabled; success reloads and stays on the item or returns to create mode; failure keeps everything; the form ends enabled |
| AdminConsole.Console.Edit | src/admin.js:355-366 | the Edit button opens the listed item; an unlisted id changes nothing |
| AdminConsole.Console.Reset | src/admin.js:385-388 | back to create mode with the status hidden |
| AdminConsole.Console.Delete | src/admin.js:367-381 | unlisted or unconfirmed does nothing. Otherwise the delete is sent while disabled, and success reloads the list. Create mode is restored only if the deleted item was the one being edited. The form ends enabled |
| Site.PageNameSpec | src/app.js:17 | the page name is the part after the last '/', or index.html when that is empty |
| Site.MarkActiveLink | src/app.js:16-22 | every link, in place, gets aria-current 'page' or 'false' and nothing else changes |
| Site.MarkedSpec | src/app.js:17-20 | a link is marked exactly when it names the same page as the location, whatever the directories; a directory link stands for index.html |
| Site.CountOfSpec | src/app.js:47-51 | the first of count, value, total, Item.count that is a number is shown; none gives no count |
| Site.CountShapes | src/app.js:47-51 | {count:5} gives 5; a DynamoDB-style {Item:{count:{N:'5'}}} and the text '5' give none |
| Site.OncePerDay | src/app.js:36-39 | a completed hit is not repeated that day, a failed one is, another day hits again, and other pages' stamps are untouched |
| Site.StampWithoutCount | src/app.js:46-53 | a reply with no count shows '—' and still stamps the day |
| Site.TextReplyStamps | src/app.js:46-53 | the text reply '5' is such a reply: it shows '—' and stamps the day |
| Site.Counter.Visit | src/app.js:29-55 | a page without the counter element sends nothing and changes nothing; otherwise POST when the page has no stamp for today, else GET; shows the count or '—'; writes the stamp only when the callback completes |

## Left out

- Strings are sequences of characters: UTF-16 surrogates are not modelled. `trim` and `\s` use a fixed whitespace set. Letter case is folded for ASCII only.
- Numbers are integers: NaN, infinities and fractions are not modelled. `String(value)` of a number is its decimal rendering.
- `JSON.parse` and `JSON.stringify` are not modelled. A text body's parse result is an input of the event. Response bodies are a datatype, not text.
- Service.ItemService.ListItems: the sort by `createdAt`, newest first, is not modelled; the list keeps the scan order.
- DynamoDB paging, S3 failures and the AWS SDK in general are not modelled. The table is a map and S3 deletions are a log. A failed S3 delete is swallowed in the source, so the log records the attempt. The URL signer is a parameter.
- `uuidv4`, `new Date()`, `Date.now()` and `crypto.randomBytes` are parameters.
- Items.MapItem: the `!item` branch is not modelled, because a stored row is never null.
- The console's DOM rendering (`renderItems`, `formatDate`), `setFormStatus`'s element updates, `disableForm`'s per-element loop (one flag), `scrollTo` and the loading and config-warning texts are not modelled.
- The image-upload path of `handleSubmit` is not modelled: `requestUpload`, `uploadImage` and the second `updateItem`. AdminConsole.Console.Submit covers a submit without a file.
- The console's request helpers are inputs of the methods: an `Outcome`/`Fetched` says how each ended. The `init` warnings are not modelled.
- Promise interleaving is not modelled: each console handler runs to its end before the next.
- `loadPartials` and `initFooterYear` in the site script are not modelled, because they only fetch HTML and write the year.
- Site.NavLink: every navigation anchor is assumed to carry an `href`. In the source a missing `href` makes `getAttribute('href').split` throw, which ends the link loop and skips the counter; the model does not capture that.
- Site.Counter.Visit: the counter's HTTP status is not read by the source, so the model does not carry it. A reply that parses as JSON completes whatever the status.
- Sanitize.SanitizeFilenameTwoWords: the literal 'My Photo.PNG' example is stated for any two alphanumeric words and an extension, not for that string.
- Site.CountOfSpec: the counter's replies are described elsewhere in more shapes than the script reads. The model follows the script, which reads `count`, `value`, `total` and `Item.count` only.

## Findings

| source | as written | input that shows it | evidently intended | confidence | as-written member | corrected member |
|---|---|---|---|---|---|---|
| infrastructure/functions/portfolio/handler.js:192-201 | `ddb.update` upserts, so an edit of an unknown id creates a partial row without `createdAt` and returns 200; the 404 after it is unreachable | PUT /items/unknown with body {"summary":"x"} | 404 'Item not found' and nothing written | not executed | Service.ItemService.UpsertItem | Service.ItemService.UpdateItem |
