# MonkeyTranslate core, modelled in Dafny

MonkeyTranslate lets a user upload comic or manga pages and extract their
text regions with a Gemini model. It then translates the regions and renders
a new image with the translated text painted over the original.
This project models the bookkeeping around a **Page** and its ordered list
of **TextRegions**, on both the client and the server, together with the
small pure helpers and state machines that surround it. The model is
functional: immutable datatypes, with pure transition functions over
sequences and maps. Coordinates and zoom are exact reals.

One module per source component:

| module | models |
|---|---|
| `Wrappers`, `Seqs`, `Strings`, `PathExt` | Option/Result; filtering with order kept; JavaScript `trim` and `includes`, ASCII `toLowerCase`; Node's `path.extname` |
| `Types` | `TextRegion` (with the declared but never assigned `status`), `Page`, the region filter both renderers use |
| `Geometry` | JavaScript `Math.round`, the normalized-box-to-pixel conversion, the 1024 default dimension |
| `XmlEscape` | the five predefined entities of section 4.6 of XML 1.0, replaced `&` first |
| `GeminiClient` | fence stripping, record-to-region mapping, translation reply handling, render filter, overlay geometry, MIME lookup |
| `ImageRenderer` | the basic sharp renderer: filter, pixel boxes, font size, two layers per region |
| `PageStore` | the server's in-memory page map and its routes: upload with the file filter and limits, get image, extract, translate, render, get, delete, list |
| `ServerConfig` | client-class choice and its memo, the forwarding proxy, the API-key validation cache, health, the shared translate route, the error handler |
| `PageEditor` | region update and delete, the positional zip of translations, `hasTranslations`, the single-flight render guard, render-error classification |
| `EditingContext` | the one-slot edit context |
| `TextRegionItem` | the per-region editor |
| `App` | the page list, the selection and the API-key modal |
| `Language` | the UI-string lookup with English fallback, the initial language, the persisted choice |
| `WorkPanel` | the target-language list, the code-to-name lookup sent to auto-translate, the region list view |
| `ZoomableImage` | scale and pan, the position clamp, the wheel, the buttons and dragging |

External effects are parameters:
- Gemini calls, `JSON.parse`, sharp, file-system checks and writes, uuid and `Date.now`;
- whether the server's Gemini client was set up (`client: bool`);
- the browser's storage and language tag (`Language.Window`);
- the container and image measurements (`ZoomableImage.Layout`).

Each parameter is a value or a function argument, and each handler is one atomic step.

The code is modelled as written. Behaviours of the code worth knowing:
- Auto-translate sends and zips over **all** regions, not an "active" subset (`PageEditor.OriginalTexts`, `PageEditor.ApplyTranslations`).
- No region-status transitions (remove, undo, permanent delete) exist. `status` is only declared (`Types.RegionStatus`).
- The edit context replaces an open edit without committing it (`EditingContext.ReplaceDropsOpenEdit`).
- No image downscale or resize-back step exists. Only the size-limit error text is matched (`PageEditor.ClassifyRenderError`).
- Translation replies are not checked against the input length (`GeminiClient.TranslationLengthUnchecked`).
- The render route stores the submitted regions before it knows whether rendering will succeed (`PageStore.Render`).

## Model

| member | source | states |
|---|---|---|
| Types.RenderedRegions | server/src/services/geminiClient.ts:164-166 | the kept regions are exactly the regions whose translation is non-empty and differs from the original, each as often as in the input, in their input order, none added |
| Geometry.JsRound | server/src/services/geminiClient.ts:196-200 | `Math.round` is the integer within half of the value, halves going up |
| Geometry.JsRoundMonotone | server/src/services/geminiClient.ts:196-200 | rounding preserves order |
| Geometry.ToPixels | server/src/services/geminiClient.ts:196-200 | left and top are the rounded scaled corner; width and height are the rounded scaled extents |
| Geometry.ToPixelsBounds | server/src/services/geminiClient.ts:196-200 | for a box inside the unit square with ordered corners, x and w lie in [0, W] and y and h in [0, H] |
| Geometry.ToPixelsOvershoot | server/src/services/imageRenderer.ts:35-38 | rounding corner and extent separately can put the far edge one pixel past the image, never more |
| Geometry.ToPixelsOvershootExample | server/src/services/imageRenderer.ts:35-38 | the one-pixel overshoot happens: a box from x 0.25 to 1 on a 2-pixel image ends at pixel 3 |
| Geometry.DimensionOrDefault | server/src/services/geminiClient.ts:188-189 | a missing or zero dimension reads as 1024; a positive one is kept |
| XmlEscape.EscapeXml | server/src/services/geminiClient.ts:238-245 | the sequential replacements equal a per-character escape; the output has no raw `<`, `>`, `"` or `'`; decoding the entities gives the input back |
| XmlEscape.PassesArePerChar | server/src/services/imageRenderer.ts:86-93 | the five passes, `&` first, act character by character |
| XmlEscape.UnescapeEscape | server/src/services/geminiClient.ts:238-245 | decoding an escaped string returns the string |
| PathExt.ExtName | server/src/services/geminiClient.ts:274 | `path.extname` is empty or starts with a dot |
| PathExt.ExtNameOfName | server/src/services/geminiClient.ts:274 | for `dir/stem.e` with a stem not starting with a dot, the extension is `.e` |
| GeminiClient.RemoveFences | server/src/services/geminiClient.ts:80-82 | removing a fence tag never lengthens the text |
| GeminiClient.RemoveFencesAbsent | server/src/services/geminiClient.ts:80-82 | text without the tag is unchanged |
| GeminiClient.RemoveFencesLeavesNoFence | server/src/services/geminiClient.ts:78-83 | after removal no three consecutive backticks remain, even where removals join backticks |
| GeminiClient.StripFences | server/src/services/geminiClient.ts:78-83 | trimmed text starting with ```` ```json ```` loses every ```` ```json ```` and then every ```` ``` ````; other fenced text loses every ```` ``` ````; unfenced text is only trimmed |
| GeminiClient.RegionId | server/src/services/geminiClient.ts:88 | a non-empty supplied id wins; otherwise `region-<index+1>` |
| GeminiClient.ToRegions | server/src/services/geminiClient.ts:87-92 | one region per parsed record, in order, with its id, bbox and text as both original and translation |
| GeminiClient.ToRegionsUnmodified | server/src/services/geminiClient.ts:87-92 | freshly extracted regions are unmodified, so none would be rendered |
| GeminiClient.DefaultIdsDistinct | server/src/services/geminiClient.ts:88 | without supplied ids the positional ids are pairwise distinct |
| GeminiClient.SuppliedIdCanCollide | server/src/services/geminiClient.ts:88 | a supplied id can repeat a positional id, so ids are not unique |
| GeminiClient.ExtractTextFromImage | server/src/services/geminiClient.ts:53-97 | success exactly when the model answers and the stripped reply parses; the regions map the records one to one; every failure is 'Failed to extract text from image' |
| GeminiClient.TranslateTexts | server/src/services/geminiClient.ts:112-135 | success exactly when the model answers and the fence-stripped reply parses, and then the parsed list is returned as is; every failure is 'Failed to translate texts' |
| GeminiClient.TranslationLengthUnchecked | server/src/services/geminiClient.ts:123-131 | an empty reply to a non-empty request is a success |
| GeminiClient.FontSize | server/src/services/geminiClient.ts:203 | at least 12; exactly 12 under 18 px; otherwise 0.7 of the height rounded down |
| GeminiClient.Overlay | server/src/services/geminiClient.ts:196-210 | the box is the pixel box of the bbox; the text is anchored at (x+5, y+h−5); the font is at least 12; the escaped text decodes to the translation |
| GeminiClient.Overlays | server/src/services/geminiClient.ts:205-210 | one overlay per kept region, in region order |
| GeminiClient.RenderTranslatedImage | server/src/services/geminiClient.ts:156-233 | a read failure is reported with the render prefix; with nothing to draw the original bytes come back unchanged; a failed metadata read with something to draw is reported with the render prefix; otherwise the composite gets the kept regions' overlays at the reported or default size |
| GeminiClient.MimeType | server/src/services/geminiClient.ts:273-283 | .jpg and .jpeg give JPEG; .png, .gif and .webp give their own types; anything else gives JPEG, by the lower-cased extension |
| GeminiClient.MimeTypeIgnoresCase | server/src/services/geminiClient.ts:274 | the type does not depend on the extension's letter case |
| GeminiClient.MimeTypeUpperCasePng | server/src/services/geminiClient.ts:273-283 | `scan.PNG` is sent as PNG |
| ImageRenderer.FontSize | server/src/services/imageRenderer.ts:41 | at least 12; exactly 12 up to 20 px; otherwise 0.6 of the height to the nearest pixel |
| ImageRenderer.RegionLayers | server/src/services/imageRenderer.ts:44-72 | two layers per region, the cover and then the text, both at the region's pixel corner |
| ImageRenderer.Layers | server/src/services/imageRenderer.ts:67-72 | the flattened layer list has exactly two entries per kept region |
| ImageRenderer.LayersAt | server/src/services/imageRenderer.ts:67-72 | entries 2i and 2i+1 are the cover and the text of region i, so region order is kept |
| ImageRenderer.LayersAppend | server/src/services/imageRenderer.ts:67-72 | flattening distributes over concatenation |
| ImageRenderer.RenderWithTranslations | server/src/services/imageRenderer.ts:11-84 | a missing width or height, or any failure, is 'Failed to render image with translations'; otherwise the composite gets the layers of the kept regions |
| ImageRenderer.NothingToDrawStillComposites | server/src/services/imageRenderer.ts:29-72 | with no region to draw the composite still runs, with no layers |
| ImageRenderer.SamePixelBoxes | server/src/services/imageRenderer.ts:35-38 | the renderer's layer positions and sizes are those of the Gemini client's pixel box |
| PageStore.Put | server/src/routes/pages.ts:47 | `Map.set`: a new key goes last and an existing key keeps its place |
| PageStore.RemoveValid | server/src/routes/pages.ts:265 | `Map.delete` keeps the store consistent and the other ids in order |
| PageStore.List | server/src/routes/pages.ts:276-284 | every stored page once, in insertion order |
| PageStore.UploadRejection | server/src/routes/pages.ts:29-44 | the verdict on the upload is one of: the eleventh file, a file the filter refuses, a file over 10 MB |
| PageStore.AcceptableNotRejected | server/src/routes/pages.ts:29-44 | at most ten files, each passing the filter and the size limit, are let through |
| PageStore.NotRejectedAcceptable | server/src/routes/pages.ts:29-44 | files let through number at most ten and each passes the filter and the size limit |
| PageStore.NewPage | server/src/routes/pages.ts:66-75 | a new page has the given id, the image URL `/api/pages/<id>/image`, no regions and no rendered image |
| PageStore.UploadedPages | server/src/routes/pages.ts:64-83 | one new page per file, in file order |
| PageStore.Upload | server/src/routes/pages.ts:58-88 | a library refusal answers 500 with its message; no files answers 400; either way nothing is stored; otherwise one page per file is answered |
| PageStore.StoreFilesOrder | server/src/routes/pages.ts:64-81 | with fresh, distinct ids the new ids go after the old ones, in file order |
| PageStore.StoreFilesKeeps | server/src/routes/pages.ts:64-81 | an id not handed out keeps its entry |
| PageStore.StoreFilesNew | server/src/routes/pages.ts:64-81 | the k-th id holds the k-th file's page and path |
| PageStore.UploadAppends | server/src/routes/pages.ts:58-88 | a successful upload lists the old pages followed by the new ones, in file order |
| PageStore.FilterMatchesSubstrings | server/src/routes/pages.ts:34-43 | the filter tests substrings: a `.pngs` file with an image MIME type passes |
| PageStore.FilterRejectsText | server/src/routes/pages.ts:34-43 | a `.txt` file of type `text/plain` is refused |
| PageStore.GetImage | server/src/routes/pages.ts:91-121 | unknown page or missing file answer 404, and a stored page with a file is always served: a recorded, readable rendered file, else the original |
| PageStore.WithRegionsFrame | server/src/routes/pages.ts:143 | replacing one page's regions changes no other page and not the order |
| PageStore.Extract | server/src/routes/pages.ts:124-151 | no client answers 503, then unknown page 404, then missing file 404; the route answers Ok exactly when the page's file is extracted, storing exactly the extracted regions; a failed extraction answers 500, and no error stores anything |
| PageStore.TranslateRequestError | server/src/routes/pages.ts:160-168 | missing or empty texts answer 400 first; then a missing language answers 400 |
| PageStore.Translate | server/src/routes/pages.ts:154-177 | no client answers 503 before the request checks; success returns the client's translations unchanged; a client failure answers 500 |
| PageStore.RenderedNameKeepsExt | server/src/routes/pages.ts:210-211 | the rendered file has the original's extension |
| PageStore.Render | server/src/routes/pages.ts:180-226 | unknown page, missing file and a non-array body answer 404, 404 and 400 with nothing stored; past those checks the submitted regions are stored even when the client is missing or rendering fails; past all checks the route answers Ok exactly when rendering and the write succeed, recording the rendered file and the image URL, and otherwise answers 500 with the submitted regions stored |
| PageStore.RenderFrame | server/src/routes/pages.ts:180-226 | every other page is unchanged, whatever the outcome |
| PageStore.RenderThenGetImage | server/src/routes/pages.ts:105-116 | after a successful render the image route serves the new file whenever it can be read |
| PageStore.GetPage | server/src/routes/pages.ts:229-243 | a stored page is answered as stored; an unknown id answers 404 |
| PageStore.Delete | server/src/routes/pages.ts:246-273 | an unknown id answers 404 and changes nothing; otherwise the page is removed whatever happens to its files |
| PageStore.DeleteFrame | server/src/routes/pages.ts:246-273 | after a delete the page is gone from the list and from lookups; the others keep their order |
| ServerConfig.Choose | server/src/services/index.ts:24-25 | the production client exactly when the flag is 'true', or the environment is development and the flag is not 'false' |
| ServerConfig.FalseForcesOss | server/src/services/index.ts:24-25 | 'false' selects the open-source client even in development |
| ServerConfig.UnsetFlagFollowsNodeEnv | server/src/services/index.ts:24-25 | without the flag only development selects production |
| ServerConfig.ClientClass | server/src/services/index.ts:18-37 | the first call decides and remembers; later calls return the remembered class |
| ServerConfig.ConstructionsAgree | server/src/services/index.ts:18-37 | every construction under one memo gets the first construction's class, whatever the environment later says |
| ServerConfig.Forward | server/src/services/index.ts:49-59 | a proxy call returns the chosen implementation's result on the same arguments |
| ServerConfig.ForwardAgrees | server/src/services/index.ts:40-60 | any two proxy calls under one memo reach the same implementation |
| ServerConfig.ProbeModel | server/src/server.ts:55-58 | 'gemini-2.5-pro' exactly for the production choice, else 'gemini-1.5-flash' |
| ServerConfig.UpdateApiKey | server/src/server.ts:31-36 | the new key with no cached verdict and time 0 |
| ServerConfig.ValidateApiKey | server/src/server.ts:39-87 | no key: false with no call; a verdict younger than 60 s: that verdict with no call; success caches true and an auth failure caches false, both stamped with the call time; any other failure answers false and caches nothing |
| ServerConfig.ValidationCachesItsVerdict | server/src/server.ts:45-80 | a verdict cached by the call is the answer it gave |
| ServerConfig.SecondValidationUsesCache | server/src/server.ts:45-48 | a second validation inside the window makes no call and repeats the verdict |
| ServerConfig.NetworkFailureRetried | server/src/server.ts:82-85 | a 'fetch failed' error caches nothing, so the next validation probes again |
| ServerConfig.HealthCheck | server/src/server.ts:111-140 | a key changed in the environment is adopted with the cache cleared; configured iff a key is set; valid iff a key is set and the verdict is not false; a background check starts iff no verdict is cached |
| ServerConfig.HealthValidImpliesConfigured | server/src/server.ts:132-138 | a valid reply is a configured one, and a newly adopted key reads as valid |
| ServerConfig.TranslateEndpoint | server/src/server.ts:146-172 | the shared translate route answers as the page route's translate does, with the key standing for the client and the memoized class's client translating; without a key the memo is untouched, with one it is fixed even when the request is rejected |
| ServerConfig.RejectedTranslateFixesClass | server/src/server.ts:150-158 | a request answered 400 with a fresh memo still fixes the class every later construction uses |
| ServerConfig.ErrorHandler | server/src/server.ts:175-180 | the error's status or 500, and its message or 'Internal server error' |
| PageEditor.UpdateRegion | client/src/components/PageEditor.tsx:34-39 | same length, order and ids; regions with the id get the new translation and nothing else changes |
| PageEditor.DeleteRegion | client/src/components/PageEditor.tsx:41-44 | exactly the regions without the id remain, each as often as before |
| PageEditor.DeleteRegionKeepsOrder | client/src/components/PageEditor.tsx:41-44 | the remaining regions keep their relative order |
| PageEditor.DeleteAbsentRegion | client/src/components/PageEditor.tsx:41-44 | deleting an id no region carries changes nothing |
| PageEditor.DeleteAfterUpdate | client/src/components/PageEditor.tsx:34-44 | editing a region and then deleting it equals deleting it |
| PageEditor.UpdateRegionIdempotent | client/src/components/PageEditor.tsx:34-39 | the same edit twice equals the edit once |
| PageEditor.OriginalTexts | client/src/components/PageEditor.tsx:49-50 | the original of every region, in list order, whatever its status |
| PageEditor.ApplyTranslations | client/src/components/PageEditor.tsx:52-57 | region i gets translation i when it exists and is non-empty, else keeps its text; ids, boxes, originals and length are unchanged |
| PageEditor.SurplusTranslationsIgnored | client/src/components/PageEditor.tsx:52-57 | translations beyond the last region change nothing |
| PageEditor.EmptyTranslationsKeepRegions | client/src/components/PageEditor.tsx:52-57 | an empty reply, or one of empty strings, changes nothing |
| PageEditor.ApplyTranslationsIdempotent | client/src/components/PageEditor.tsx:52-57 | applying a reply twice equals applying it once |
| PageEditor.EchoedOriginalsUnmodify | client/src/components/PageEditor.tsx:49-57 | a reply echoing the non-empty originals leaves nothing translated |
| PageEditor.GenerateEnabled | client/src/components/PageEditor.tsx:114-145 | enabled exactly for a non-empty list, not rendering, with some region whose translation differs from its original |
| PageEditor.DrawableEnablesGenerate | client/src/components/PageEditor.tsx:114-145 | whenever the renderers have something to draw, the idle button is enabled |
| PageEditor.EnabledWithNothingToDraw | client/src/components/PageEditor.tsx:114 | a translation to the empty string enables the button though nothing would be drawn |
| PageEditor.ExtractText | client/src/components/PageEditor.tsx:21-32 | success replaces the whole region list; failure raises the alert and changes nothing; the flag is cleared either way |
| PageEditor.AutoTranslate | client/src/components/PageEditor.tsx:46-64 | the originals are sent; success zips the reply into the regions; failure changes nothing; the flag is cleared either way |
| PageEditor.ErrorText | client/src/components/PageEditor.tsx:82-87 | the details when given, else the message, else 'Unknown error', never empty |
| PageEditor.ClassifyRenderError | client/src/components/PageEditor.tsx:89-95 | the pixel-limit texts give the too-large alert; else 'Failed to render translated image' gives the detailed alert; else the generic one |
| PageEditor.UnknownErrorIsGeneric | client/src/components/PageEditor.tsx:82-95 | a failure without details or message gets the generic alert |
| PageEditor.TooLargeWins | client/src/components/PageEditor.tsx:89-95 | a text matching both tests gets the too-large alert |
| PageEditor.BeginRender | client/src/components/PageEditor.tsx:68-71 | a press while rendering does nothing; otherwise the flag is set |
| PageEditor.FinishRender | client/src/components/PageEditor.tsx:72-98 | the flag is cleared; success changes only the rendered URL and adds 1 to the image key; failure changes nothing and alerts |
| PageEditor.GenerateImage | client/src/components/PageEditor.tsx:66-99 | a press while rendering has no effect; otherwise the render runs to its reply |
| PageEditor.RenderSingleFlight | client/src/components/PageEditor.tsx:66-99 | after a completed render the flag is clear, and a failure leaves the page as it was |
| PageEditor.ClientPrefixIsDetailed | client/src/components/PageEditor.tsx:89-95 | a failure text with the client's render prefix and no size text gets the detailed alert |
| PageEditor.RouteFailureIsGeneric | client/src/components/PageEditor.tsx:82-95 | the render route's 500 reply carries no details, so the HTTP client's status message is classified and the generic alert shows |
| EditingContext.SetCurrentEdit | client/src/contexts/EditingContext.tsx:22 | the slot takes the new value and no callback is called |
| EditingContext.AutoSave | client/src/contexts/EditingContext.tsx:24-29 | an open edit's callback is called once and the slot is emptied; with none open nothing happens |
| EditingContext.UseEditing | client/src/contexts/EditingContext.tsx:42-48 | outside a provider the call fails with its message; inside it returns the context |
| EditingContext.AutoSaveOnce | client/src/contexts/EditingContext.tsx:24-29 | a second auto-save right after the first calls nothing |
| EditingContext.ReplaceDropsOpenEdit | client/src/contexts/EditingContext.tsx:22-34 | replacing an open edit drops it: the next auto-save calls only the new edit's callback |
| EditingContext.RunCallsOpenedOnly | client/src/contexts/EditingContext.tsx:22-34 | over any action sequence every callback called was open at the start or opened by an action, and there are no more calls than such openings |
| TextRegionItem.Mount | client/src/components/TextRegionItem.tsx:13-14 | not editing, the draft is the region's translation |
| TextRegionItem.StartEdit | client/src/components/TextRegionItem.tsx:83 | editing starts with whatever draft is held |
| TextRegionItem.Save | client/src/components/TextRegionItem.tsx:16-19 | one update with the region's id and the draft, and editing ends |
| TextRegionItem.Cancel | client/src/components/TextRegionItem.tsx:67-70 | the draft returns to the region's translation, editing ends, nothing is reported |
| TextRegionItem.ShowsModified | client/src/components/TextRegionItem.tsx:21-35 | the badge shows exactly when the translation differs from the original |
| TextRegionItem.SaveUnchangedIsNoOp | client/src/components/TextRegionItem.tsx:16-19 | saving the region's own text leaves the page's list unchanged |
| TextRegionItem.StaleDraftRevertsTranslation | client/src/components/TextRegionItem.tsx:13-19 | as written, saving a draft held from mount undoes a later auto-translation |
| TextRegionItem.FreshDraftSaveIsNoOp | client/src/components/TextRegionItem.tsx:83 | corrected: an edit begun from the current translation and saved at once changes nothing |
| App.UploadSuccess | client/src/App.tsx:37-42 | the new pages follow the old ones; with nothing selected the first new page is selected, otherwise the selection stays |
| App.DeleteSuccess | client/src/App.tsx:52-57 | exactly the other pages remain, each as often as before; a selected deleted page gives way to the pre-delete first page when there were several, else to none |
| App.DeleteKeepsOrder | client/src/App.tsx:53 | the remaining pages keep their order |
| App.UpdatePage | client/src/App.tsx:70-72 | the page with the id is replaced in place; length, other pages and selection are unchanged |
| App.SelectedPage | client/src/App.tsx:74 | the first page whose id is the selected id (no earlier page has it), present whenever one exists, none without a selection |
| App.HealthEffect | client/src/App.tsx:25-32 | the reported flag is recorded; the modal opens when no key is configured and no page is loaded, and is never closed here |
| App.HealthKeepsModalWithPages | client/src/App.tsx:27-30 | with pages loaded the health reply leaves the modal as it was |
| App.FirstUploadShowsFirstPage | client/src/App.tsx:37-42 | the first upload shows its first page |
| App.UpdateShowsUpdatedPage | client/src/App.tsx:70-74 | updating the selected page shows the update |
| App.DeleteFirstSelectsDeleted | client/src/App.tsx:54-55 | as written, deleting the selected first of two pages keeps the deleted id selected and shows no page |
| App.DeleteSuccessFixed | client/src/App.tsx:52-57 | corrected: the same pages remain and the selection moves to the first remaining page, if any |
| App.DeleteFixedSelectsRemaining | client/src/App.tsx:54-55 | corrected: after deleting the selected page the shown page is the first remaining one |
| Language.Translate | client/src/contexts/LanguageContext.tsx:46-49 | the language's non-empty text, else the English one, else the key; never empty for a non-empty key |
| Language.OwnEntryWins | client/src/contexts/LanguageContext.tsx:46-49 | a text the language has wins |
| Language.MissingReadsAsEnglish | client/src/contexts/LanguageContext.tsx:46-49 | a missing or empty text reads as in English |
| Language.UnknownKeyIsItself | client/src/contexts/LanguageContext.tsx:46-49 | a key no table has reads as itself |
| Language.BrowserPrefix | client/src/contexts/LanguageContext.tsx:26 | the tag's prefix up to its first '-' |
| Language.InitialLanguage | client/src/contexts/LanguageContext.tsx:19-32 | English without a window; otherwise a usable stored code that names a table, else the browser tag's prefix when it names a table, else English |
| Language.StoredCodeWins | client/src/contexts/LanguageContext.tsx:22-26 | a stored code naming a table is used whatever the browser says |
| Language.RegionlessTagSelectsItself | client/src/contexts/LanguageContext.tsx:26-29 | without a usable stored code a tag with no region, such as "de", selects its own table |
| Language.BrowserTagSelectsPrefix | client/src/contexts/LanguageContext.tsx:27-30 | without a usable stored code the tag "xx-YY" selects the table "xx" |
| Language.Mount | client/src/contexts/LanguageContext.tsx:19-39 | the first render holds the initial language and is not initialized |
| Language.SetLanguage | client/src/contexts/LanguageContext.tsx:41-44 | the language changes and the same code is stored |
| Language.ProvidedLanguage | client/src/contexts/LanguageContext.tsx:52-54 | nothing is provided until initialized |
| Language.UseLanguage | client/src/contexts/LanguageContext.tsx:63-69 | outside a provider the call fails with its message |
| Language.FirstRenderIsEmpty | client/src/contexts/LanguageContext.tsx:34-54 | the first render provides nothing; after the mount effect the initial language is provided |
| Language.ChoiceSurvivesReload | client/src/contexts/LanguageContext.tsx:19-44 | a chosen language is the one the next start-up begins with |
| Language.GermanFallsBackToEnglish | client/src/i18n/translations.ts:398-516 | German lacks 'extractText', so the English text shows |
| Language.ImageTooLargeShowsKey | client/src/components/PageEditor.tsx:90-91 | 'imageTooLarge' is in no table, so the key itself shows |
| WorkPanel.Find | client/src/components/WorkPanel.tsx:34 | the first entry with the code, or none exactly when no entry has it |
| WorkPanel.LanguageName | client/src/components/WorkPanel.tsx:33-36 | a listed name for the code, or the code itself |
| WorkPanel.CodesDistinct | client/src/components/WorkPanel.tsx:13-27 | the thirteen codes are pairwise distinct |
| WorkPanel.SameCodesAsInterface | client/src/components/WorkPanel.tsx:13-27 | the list offers the interface's thirteen codes in the same order |
| WorkPanel.ListedCodeSendsName | client/src/components/WorkPanel.tsx:33-36 | a listed code sends its English name |
| WorkPanel.UnlistedCodeSentAsIs | client/src/components/WorkPanel.tsx:33-36 | an unlisted code is sent unchanged |
| WorkPanel.DefaultSendsSpanish | client/src/components/WorkPanel.tsx:30-36 | the default selection sends "Spanish" |
| WorkPanel.Render | client/src/components/WorkPanel.tsx:38-103 | no regions give the empty state; otherwise the count is the list length, the rows are the regions with their 0-based index, and translating is allowed iff none is running |
| WorkPanel.RowsAreRegions | client/src/components/WorkPanel.tsx:96-103 | the rows read back as the region list |
| WorkPanel.AutoTranslateClick | client/src/components/WorkPanel.tsx:33-36 | while translating nothing is sent; otherwise the selected code's name |
| WorkPanel.SelectThenTranslate | client/src/components/WorkPanel.tsx:30-75 | selecting an entry and pressing the button sends that entry's name |
| ZoomableImage.ClampTo | client/src/components/ZoomableImage.tsx:54 | `Math.min(Math.max(v, lo), hi)` never exceeds hi, lies in [lo, hi] when lo ≤ hi, and is v when v is already inside |
| ZoomableImage.ConstrainPosition | client/src/components/ZoomableImage.tsx:30-69 | without measurements the input is returned; an image fitting on both axes goes to the origin; an overflowing axis is clamped into [bound, 0]; a fitting axis keeps its value |
| ZoomableImage.IntendedKeepsContainerCovered | client/src/components/ZoomableImage.tsx:51-62 | corrected: with the bound container − scaled, an overflowing image always covers the container |
| ZoomableImage.AsWrittenPushesImageOut | client/src/components/ZoomableImage.tsx:53 | as written, a 100 px image in a 100 px container at scale 2 can sit at x = −200, fully outside |
| ZoomableImage.AsWrittenBoundIsLower | client/src/components/ZoomableImage.tsx:53-60 | above scale 1 the written bound lies strictly below the intended one |
| ZoomableImage.Settle | client/src/components/ZoomableImage.tsx:23-28 | at scale 1 the position returns to the origin; otherwise nothing changes |
| ZoomableImage.ZoomIn | client/src/components/ZoomableImage.tsx:141-148 | below 5 the scale rises by 0.2, capped at 5; at 5 nothing changes; the viewer invariant is kept |
| ZoomableImage.ZoomOut | client/src/components/ZoomableImage.tsx:150-157 | above 1 the scale falls by 0.2, floored at 1; at 1 nothing changes; the viewer invariant is kept |
| ZoomableImage.ResetZoom | client/src/components/ZoomableImage.tsx:159-162 | scale 1 at the origin |
| ZoomableImage.Wheel | client/src/components/ZoomableImage.tsx:76-101 | with a container the scale becomes scale − deltaY·0.01 clamped into [1, 5]; without one nothing changes; the viewer invariant is kept |
| ZoomableImage.MouseDown | client/src/components/ZoomableImage.tsx:107-116 | a drag starts only with the left button while zoomed in |
| ZoomableImage.MouseMove | client/src/components/ZoomableImage.tsx:118-131 | while dragging and zoomed in the position follows the pointer, clamped; otherwise nothing changes |
| ZoomableImage.MouseUp | client/src/components/ZoomableImage.tsx:133-139 | the drag ends |
| ZoomableImage.ZoomLabel | client/src/components/ZoomableImage.tsx:200 | for a scale in [1, 5] the shown percentage is between 100 and 500 |
| ZoomableImage.DragNeedsLeftButtonAndZoom | client/src/components/ZoomableImage.tsx:108 | no drag starts unzoomed or with another button |
| ZoomableImage.DragFollowsPointer | client/src/components/ZoomableImage.tsx:118-131 | without measurements a pointer move by (dx, dy) moves the image by (dx, dy) |
| ZoomableImage.Step | client/src/components/ZoomableImage.tsx:76-162 | every action keeps the scale in [1, 5] with the origin at scale 1 |
| ZoomableImage.RunKeepsInvariant | client/src/components/ZoomableImage.tsx:20-162 | any sequence of actions keeps the scale in [1, 5] with the origin at scale 1 |
| ZoomableImage.ZoomOutToOneRecentres | client/src/components/ZoomableImage.tsx:23-28 | zooming out from 1.2 reaches 1 and brings a moved image back to the origin |

## Left out

- I/O is not modelled: Gemini calls, `JSON.parse`, sharp, the file system, multer's storage, uuid and `Date.now`. Each is a parameter: a value, or a function returning success or failure.
- The server's Gemini client in the page routes is set up once, at start-up (server/src/server.ts:89-108), and a later key update does not replace it. Whether it exists is the `client` parameter.
- The upload library's error texts belong to multer. The model carries them as constants.
- The background key validation that health starts (server/src/server.ts:123-128) is not run. Health reports whether it would start.
- React batching, stale closures and effect timing are not modelled. Each handler is one atomic step.
- `handleDownload` (client/src/components/PageEditor.tsx:101-112) only builds a DOM download link.
- `onDeleteRegion` is passed by client/src/components/PageEditor.tsx:203 but is not among WorkPanel's props (client/src/components/WorkPanel.tsx:6-11). It never reaches a region, so the panel model has no delete.
- Floating point is not modelled: coordinates and zoom are exact reals, and `Math.round` is floor(v + 1/2). The 0.2 zoom step is therefore exact, where IEEE-754 arithmetic would drift slightly. `toFixed` display formatting is left out.
- ZoomableImage.ConstrainPosition: the clamp measures the image by its natural size, as the code does, not by its displayed size. The CSS layout that relates the two is not modelled.
- Language: the string tables are a parameter, and `Sample` holds only a few entries of the real tables. JavaScript property lookup through the object prototype (a key such as `toString`) is not modelled.
- The render route's `details` field is read by the editor but never sent by the server routes. The model allows it either way.
- The client's rendered-image URL (`/rendered-image`) is not routed by the server and is left out.
- The presentation components (API-key modal, upload zone, page list, language selector, removed-region item) and the desktop shell (Electron process, IPC, config file, menus) are not modelled.
- No image downscale or resize-back step exists in this code, so none is modelled.
- The production Gemini client is not part of this model. Only the open-source client's renderer and the basic renderer are.
- Strings.ToLower: lowers only ASCII `A`–`Z`, where JavaScript `toLowerCase` lowers all of Unicode. The only callers lower a file extension before comparing it with `.jpg`, `.jpeg`, `.png`, `.gif` and `.webp` (`GeminiClient.MimeType`) or searching it for those names (the upload filter, `PageStore.FileFilter`). JavaScript lowers every non-ASCII character to non-ASCII text except the Kelvin sign, which becomes `k`, and `İ`, which becomes `i` followed by a combining dot. No compared name contains `k`, and an `i` followed by a combining dot cannot complete `gif`, so neither answer changes.
- The edit context is modelled as its source defines it, but none of the components in this model uses `useEditing` or `EditingProvider`. `TextRegionItem` keeps its own editing state (client/src/components/TextRegionItem.tsx), so the context's auto-save is not part of any modelled flow.

## Findings

| source | as written | input that shows it | evidently intended | confidence | as-written member | corrected member |
|---|---|---|---|---|---|---|
| client/src/components/TextRegionItem.tsx:14, 83 | the draft is set from `region.translated` only at mount; the edit button does not refresh it | a region mounted with translation "a", auto-translated to "b", then edited and saved without typing: the save writes "a" back | editing starts from the region's current translation | not executed | TextRegionItem.StaleDraftRevertsTranslation | TextRegionItem.FreshDraftSaveIsNoOp |
| client/src/App.tsx:54-55 | after deleting the selected page the selection becomes `pages[0]` of the list before the delete | pages [A, B] with A selected, delete A: A's id stays selected and no page is shown | select the first remaining page | not executed | App.DeleteFirstSelectsDeleted | App.DeleteFixedSelectsRemaining |
| client/src/components/ZoomableImage.tsx:53, 60 | the lower bound is (container − scaled) · scale | a 100 px image in a 100 px container at scale 2: x may reach −200, where the image's right edge is at the container's left edge | the bound container − scaled, which keeps the right edge at the container's right edge | not executed | ZoomableImage.AsWrittenPushesImageOut | ZoomableImage.IntendedKeepsContainerCovered |
