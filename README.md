# Family Album Downloader — a Dafny model of the downloader core

The Family Album Downloader logs into a shared family album with an album id
and password, then enumerates the album page by page. Each listing page
carries its media records as JSON after the marker `gon.media=`. The
downloader saves every photo and video that is not on disk yet. Each file is
named after the record's lower-cased uuid and stamped with its capture time.
Videos are first saved with the raw suffix `.uncompressed`. A separate pass
hands each raw video to a transcoder, gives the compressed file the raw
file's time, and deletes the raw file.

This project models that core in Dafny:

- `text.dfy` (`Text`): the string operations the client relies on. These are
  search, `replace`, ASCII lower-casing and the UTF-8 byte length that
  `str::find` counts in.
- `failures.dfy` (`Failures`): every panic and error of the client as a
  value, and HTTP replies.
- `files.dfy` (`FileSystem`): the output directory as a map from paths to
  content and modification time, held by a `Disk` object that the client
  writes through.
- `media.dfy` (`Media`): the media record, `is_video`, `download_url` and
  `suggested_file_name`.
- `media_cs.dfy` (`MediaCs`): the older C# record, `DownloadUrl` and
  `SuggestedFileName`, and how both variants compare.
- `feed_scan.dfy` (`FeedScan`): the authenticity-token scan of `login` and
  the bracket-counting payload scan of `fetch_media_model`. Each comes as
  written and as evidently intended (see Findings).
- `pagination.dfy` (`Pagination`): the paging loop of `fetch_images_urls`.
- `download.dfy` (`Download`): the download pass as a function over the
  files present. It comes with what it preserves, what it adds, its counters,
  idempotence and how it stops.
- `compress.dfy` (`Compress`): the file handling of `compress_videos`.
- `client.dfy` (`AlbumClient`): the `FamilyAlbumClient` class. Its methods
  update the session and the disk step by step, and each is proved equal to
  the specification functions above.

The network, the JSON decoder and the transcoder are parameters. A server is
a function from request to reply. The decoder is a function from text to an
optional page record. The transcoder is a function from input path to what
it did.

The model follows the code in these cases:

- A listing request that ends on the login page stops the run (a panic in
  the code). It is not reported as an expired session.
- A download reply with any status other than 403 has its body written,
  error pages included.
- Compression counts as done when the destination file exists afterwards,
  whatever the transcoder's exit status.
- There is no loop that logs in again and retries after an expired session:
  the program's entry point ignores the download pass's result.

## Model

| member | source | states |
|---|---|---|
| Text.FindFrom | src/family_album_client.rs:303 | the first occurrence at or after a position; none before it; `None` exactly when there is none |
| Text.FindFromAppend | src/family_album_client.rs:303 | a match found in a text stays the first match whatever is appended |
| Text.Utf8LengthVsChars | src/family_album_client.rs:80-81 | a string's UTF-8 byte length is at least its character count, and equal exactly when it is all ASCII |
| Text.ReplaceAll | src/model.rs:71 | `str::replace`: replacing by a pattern no longer than `from` never lengthens the string, and by one no shorter never shortens it |
| Text.ReplaceAllNotFound | src/family_album_client.rs:193 | a string in which `find` reports no occurrence is left unchanged by `replace` |
| Text.ReplaceAllConcat | src/model.rs:70-71 | `replace` distributes over a concatenation when no occurrence can straddle the join |
| Text.ReplaceAllDeleteShrinks | src/family_album_client.rs:193 | deleting every occurrence never lengthens a string, and shortens it when there is one |
| Text.Lower | src/model.rs:92 | lower-casing keeps the length and maps each character through the ASCII case map |
| Text.LowerIdentifiesCase | src/model.rs:92 | two strings lower-case alike exactly when they are equal ignoring ASCII case |
| Media.Extension | src/model.rs:80-90 | `image/jpeg`→jpg, `image/png`→png, `video/mp4`→mp4, each exactly for that content type; any other content type is an unknown-type failure |
| Media.DownloadUrl | src/model.rs:64-77 | photo: the expiring url; movie: the rewritten video url ending in `/download`; movie without url and unknown media type fail |
| Media.MovieUrlRewrite | src/model.rs:68-71 | a movie url with one playlist segment, between a head and a tail without it (the tail empty or starting with `/`), has only that segment rewritten, then `/download` |
| Media.MovieUrlExample | src/model.rs:68-71 | `https://x/media_files_playlist/abc` is fetched from `https://x/media_files/abc/download` |
| Media.SuggestedFileName | src/model.rs:79-99 | succeeds exactly for the three content types; the file lies in the base path, ends in `.<ext>`, has no upper-case letters |
| Media.SameFileIff | src/model.rs:92-93 | two records map to the same file exactly when their uuids differ only in case and their extensions agree |
| Media.IsVideo | src/model.rs:60-62 | a record is a video exactly when the extension table gives it `mp4` |
| MediaCs.DownloadUrl | Model.cs:41-56 | succeeds exactly for photo and movie; the movie url comes back verbatim, null included; otherwise throws |
| MediaCs.SuggestedFileName | Model.cs:58-77 | succeeds exactly with a known content type and a non-null uuid; an unknown type throws first, then a null uuid; the file lies in the base path and ends in `.<ext>` |
| MediaCs.SameFileIff | Model.cs:58-77 | two records map to the same file exactly when their uuids differ only in case and their content types share an extension |
| MediaCs.FileNameIgnoresUuidCase | Model.cs:76 | uuids differing only in case give the same file |
| MediaCs.FileNamesAgreeAcrossVariants | Model.cs:58-77 | the C# and Rust file names agree, and both refuse the same content types |
| MediaCs.DownloadUrlsAcrossVariants | Model.cs:41-56 | photo urls agree; a movie url is rewritten only by the Rust variant; a movie without url fails only there |
| FileSystem.Disk.Write | src/family_album_client.rs:259 | writing replaces exactly that path's entry, stamped with the clock |
| FileSystem.Disk.SetMtime | src/family_album_client.rs:261-265 | only that file's time changes |
| FileSystem.Disk.Remove | src/family_album_client.rs:228 | exactly that path disappears |
| FeedScan.StartAfter | src/family_album_client.rs:302-308 | the intended scan start: right after an occurrence of the pattern with none before it, within the page; none exactly when the pattern is absent |
| FeedScan.AsWrittenStartOvershoots | src/family_album_client.rs:80-81 | the byte-offset start is never before the intended one, and equals it exactly when the text up to the pattern's end is ASCII |
| FeedScan.PatternsAscii | src/family_album_client.rs:79 | both patterns are ASCII, so their byte length is their length |
| FeedScan.QuoteFreePrefix | src/family_album_client.rs:84-89 | a prefix of the text, containing no quote, ending at a quote or at the end |
| FeedScan.QuoteFreePrefixUnique | src/family_album_client.rs:84-89 | those properties determine the token uniquely |
| FeedScan.AuthToken | src/family_album_client.rs:79-90 | the token of the login page: a failure exactly when the pattern is missing, otherwise quote-free |
| FeedScan.AuthTokenAsWritten | src/family_album_client.rs:79-90 | the token as the code computes it: the same failure case, and still quote-free |
| FeedScan.AuthTokenIsMaximalRun | src/family_album_client.rs:79-90 | the token is the maximal quote-free run right after the pattern in the page |
| FeedScan.ScanToken | src/family_album_client.rs:82-90 | the character loop collects exactly the quote-free prefix from its start |
| FeedScan.ExtractAuthToken | src/family_album_client.rs:79-90 | the token of the login page, or missing-pattern when the field is absent |
| FeedScan.AsWrittenTokenTruncated | src/family_album_client.rs:80-84 | with one two-byte character before the field, the code loses the token's first character |
| FeedScan.FirstClose | src/family_album_client.rs:312-324 | the first index where a closing bracket brings the depth back to zero; none before it; none at all when `None` |
| FeedScan.PayloadEndAfterStart | src/family_album_client.rs:315-323 | a payload is at least two characters, so its end lies after its start |
| FeedScan.SentinelNeverCollides | src/family_album_client.rs:309-328 | a real payload end is never 0, so "0 means not found" is sound for both start rules |
| FeedScan.ScanPayload | src/family_album_client.rs:309-324 | the loop returns 0 exactly when the depth never returns to zero, else that first end and the text up to it |
| FeedScan.FirstCloseAppend | src/family_album_client.rs:312-324 | a payload end found in a text is unchanged by anything appended |
| FeedScan.TrailingContentIgnored | src/family_album_client.rs:302-339 | text after a complete payload does not change the decoded page |
| FeedScan.MediaModel | src/family_album_client.rs:302-339 | the intended scan of a listing page: a page is decoded only when the marker and a complete payload are there; it fails only with a scan failure |
| FeedScan.MediaModelAsWritten | src/family_album_client.rs:302-339 | the scan as written: it fails with a missing marker exactly when the marker is absent, and fails only with a scan failure |
| FeedScan.ListingPage | src/family_album_client.rs:288-339 | one listing request: no reply is a transport failure; a redirect to the login page fails exactly then; a decoded page is the scan of the page's text |
| FeedScan.MediaModelCases | src/family_album_client.rs:302-339 | missing marker and unterminated payload each happen exactly in their case; a decoded page comes from the shortest balanced run after the marker |
| FeedScan.FetchMediaModel | src/family_album_client.rs:288-340 | no reply and a redirect to the login page fail; otherwise the listing is scanned and decoded as specified |
| FeedScan.AsWrittenAgreesOnAsciiPrefix | src/family_album_client.rs:308-312 | when the text before the pattern is ASCII, the code as written finds the same payload and token |
| FeedScan.AsWrittenPayloadMisplaced | src/family_album_client.rs:308-312 | one two-byte character before the marker makes the code miss the payload `{}` that the intended scan finds |
| Pagination.StopsAtUnique | src/family_album_client.rs:278-283 | the loop can stop at only one page |
| Pagination.Collected | src/family_album_client.rs:280 | every media file collected from pages 1 to n is listed on one of those pages |
| Pagination.Outcome | src/family_album_client.rs:276-283 | the run fails exactly when the stopping page failed, with its failure; otherwise the stopping page's media come last |
| Pagination.AllMedia | src/family_album_client.rs:274-286 | the album's media are the outcome at a page where the loop stops |
| Pagination.AllMediaIs | src/family_album_client.rs:274-286 | the album's media are the outcome at the page where the loop stops |
| Pagination.CollectedHasEveryPage | src/family_album_client.rs:280 | each page's media appear in the result after those of earlier pages |
| Pagination.FetchImagesUrls | src/family_album_client.rs:274-286 | pages 1, 2, ... are requested in order up to the stopping page; the result is all their media, or that page's failure |
| Pagination.TwoPages | src/family_album_client.rs:274-286 | pages [a, b] (more to come) then [c] (last) give [a, b, c] |
| Pagination.FailureDiscardsCollected | src/family_album_client.rs:279 | a failing page ends the run with its failure, discarding what was collected |
| Download.Plan | src/family_album_client.rs:139-153 | a planned download never goes to a path that exists, and stays in the target's directory |
| Download.SaveOutcomeOf | src/family_album_client.rs:248-258 | a url that cannot be formed fails with its failure; no reply is a transport failure; 403 is denied; any other status is written with the reply's body |
| Download.Advance | src/family_album_client.rs:139-153 | one media file: a stop is never a finished pass; going on adds at most one download and keeps every file; no download exactly when the files are unchanged |
| Download.Run | src/family_album_client.rs:138-157 | the download pass: downloads ≤ processed ≤ items, and every file present before is still there |
| Download.PlanDecision | src/family_album_client.rs:139-153 | skip exactly when the final file, or a video's raw file, exists; a download never overwrites, photo to the final name, video to the raw name |
| Download.AdvanceEffect | src/family_album_client.rs:139-153 | one media file: a present one is skipped; afterwards it is present, earlier files are kept, and at most one new file is added, at its save path with its capture time |
| Download.RunOnlyAdds | src/family_album_client.rs:138-157 | existing files are never changed or removed; every new file lies in the output directory at an item's save path with its capture time |
| Download.RunCounts | src/family_album_client.rs:127-157 | downloads ≤ processed ≤ items; a finished pass processed every item; each download adds one file |
| Download.RunFinishedCoversAll | src/family_album_client.rs:138-157 | after a finished pass every item is on disk, final or raw |
| Download.AllPresentRunIsNoop | src/family_album_client.rs:143-153 | a pass over items already on disk changes nothing and downloads nothing |
| Download.RunIdempotent | src/family_album_client.rs:138-157 | repeating a finished pass is a no-op |
| Download.RunConcat | src/family_album_client.rs:138-157 | a pass over two lists is a pass over the first then, if it finished, over the second; a stopped pass never reaches the second |
| Download.RunStopsAtItem | src/family_album_client.rs:149 | a stopped pass stops at item `count`: the items before it form a finished pass with the same files, and that item stops it the same way |
| Compress.Destination | src/family_album_client.rs:193 | the compressed name is no longer than the raw name, and a name without the raw suffix is kept |
| Compress.Settle | src/family_album_client.rs:222-231 | no destination: nothing changes; destination and raw file: the destination takes the raw file's time and the raw file goes; destination without raw file fails and changes nothing; no other path changes |
| Compress.CompressStep | src/family_album_client.rs:193-232 | a transcoder that cannot be started fails exactly then and changes nothing; the only other failure is a missing raw file; nothing outside the directory changes |
| Compress.CompressAll | src/family_album_client.rs:192-235 | the compression pass never counts more raw files than it was given |
| Compress.DestinationDiffers | src/family_album_client.rs:193 | a raw file's destination name is shorter, so the transcoder never writes over its input |
| Compress.DestinationOfRaw | src/family_album_client.rs:145 | stripping the raw suffix undoes appending it |
| Compress.CompressedVideoIsTarget | src/family_album_client.rs:143-147 | a compressed raw download becomes exactly the file the download pass checks first |
| Compress.CompressStepEffect | src/family_album_client.rs:192-232 | per raw file: a transcoder failure changes nothing; otherwise exactly one of raw and destination remains, the destination with the raw file's time; nothing else changes |
| Compress.CompressAllCountsAndFrame | src/family_album_client.rs:192-235 | every raw file taken is counted, all of them when nothing failed; files outside the output directory are untouched |
| Compress.OneRawFile | src/family_album_client.rs:192-235 | a lone `base.uncompressed` leaves only `base`, with the new content and the raw file's time |
| Compress.UncompressedNames | src/family_album_client.rs:171-179 | exactly the names in the directory ending in `.uncompressed`, each once |
| AlbumClient.LoginOutcome | src/family_album_client.rs:58-120 | no login page is a transport failure; a non-2xx page fails with its status; a page without the token field fails; a success returns the page's token; a rejected form comes after a 2xx page with a token |
| AlbumClient.LoginSucceedsIff | src/family_album_client.rs:58-120 | login yields token t exactly when the page is 2xx, t is its token, and the form with t and the password is accepted with 2xx |
| AlbumClient.FamilyAlbumClient.constructor | src/family_album_client.rs:28-38 | the base address is the site root plus the album id; no token yet |
| AlbumClient.FamilyAlbumClient.Login | src/family_album_client.rs:58-120 | a new client is built first; the token is stored exactly when login succeeds; failures are reported as the exchange specifies |
| AlbumClient.FamilyAlbumClient.SaveMediaFile | src/family_album_client.rs:243-272 | the outcome is the save outcome of the record; only a write changes the disk, and then only the target, stamped with the capture time |
| AlbumClient.FamilyAlbumClient.ProcessItem | src/family_album_client.rs:139-156 | one loop iteration advances the download pass by exactly its first item |
| AlbumClient.FamilyAlbumClient.SaveAll | src/family_album_client.rs:138-157 | the loop's files, outcome and counters are those of the download pass |
| AlbumClient.FamilyAlbumClient.DownloadAllMedia | src/family_album_client.rs:122-163 | a paging failure changes nothing; otherwise the disk and counters are the download pass over all the album's media |
| AlbumClient.FamilyAlbumClient.CompressFile | src/family_album_client.rs:193-232 | one loop iteration on a raw file leaves the disk and failure of one compression step |
| AlbumClient.FamilyAlbumClient.CompressVideos | src/family_album_client.rs:165-241 | no transcoder: nothing changes; the listed names are the raw files; with none there is nothing to do; otherwise the disk and count are the compression pass |

## Left out

- HTTP, cookies and the user agent: each exchange is a reply value or a function from request to reply. The listing request is indexed by page number, not by its URL.
- A reply whose body cannot be read is treated like a missing reply.
- JSON decoding is the parameter `decode`. Fields of the page record that the core does not read are not modelled.
- Capture times: only whole Unix seconds are kept. The chrono date type and floating-point fields are not modelled.
- Lower-casing covers ASCII letters only, not Unicode case mapping.
- Paths are a directory and a name: `Path::join`, `format!("{p}/{n}")`, separators and non-UTF-8 names are not modelled. One visible case follows from this: a raw file named exactly `.uncompressed` has the empty destination name, for which the code's `format!("{p}/")` names the output directory itself; that exists, so the code sets the directory's modification time and deletes the raw file, while `Compress.Settle` finds no destination and keeps the raw file.
- `create_dir_all` and directories: the output directory is assumed to exist.
- A `read_dir` failure, an unreadable directory entry and a `write` or `set_file_mtime` failure, all `unwrap`ed in the code, are not modelled. `remove_file` always succeeds, and the failure the code only logs is not modelled.
- The transcoder's arguments and encoding profile: only its effect on the files is modelled. The transcoder download and the transcoder run are parameters.
- Progress bars, console output and logging.
- Pagination.FetchImagesUrls: requires that some page stops the loop. The code loops without bound on an album that never reports a last page.
- `i32` page numbers and the `i32` bracket depth may overflow in the code; the model uses unbounded integers.
- FeedScan.ScanPayload and FeedScan.ScanToken: start at the intended character index; the code's own start is modelled by the `AsWritten` functions.
- The entry point (`src/main.rs`, `Program.cs`), the C# client (`FamilyAlbumClient.cs`) and the EXIF writer (`ExifClient.cs`) are not part of this model.
- No retry after an expired session (a 403 reply) is modelled: the code stops the pass and does not log in again.

## Findings

| source | as written | input that shows it | evidently intended | confidence | as-written member | corrected member |
|---|---|---|---|---|---|---|
| src/family_album_client.rs:308-312 | the byte offset from `find`, plus the marker's byte length, is used as the number of characters to skip | a listing page `é` + `gon.media=` + `{}`: the scan starts at the closing brace, the depth goes to -1, and the page is reported unterminated | start the scan at the character right after the marker, as the comment beside the loop says | not executed | FeedScan.MediaModelAsWritten (shown by FeedScan.AsWrittenPayloadMisplaced) | FeedScan.FetchMediaModel |
| src/family_album_client.rs:80-84 | the same byte-offset skip before collecting the authenticity token | a login page `é` + the token field + `abc"`: the token sent back is `bc` instead of `abc` | collect from the character right after the field's opening quote | not executed | FeedScan.AuthTokenAsWritten (shown by FeedScan.AsWrittenTokenTruncated) | FeedScan.ExtractAuthToken |
