# matcha backend core and two client pages, in Dafny

This project models the core of the matcha dating application and proves properties of the model.

- **Backend (`backend/src/server.ts`, `backend/src/errors.ts`):**
  - the error constructors and the unified error handler;
  - the double-submit CSRF middlewares and the cookie setters;
  - the JWT guard `requireAuth` and the Socket.IO handshake guard with its hand-written cookie parser;
  - the email verification and password reset tokens;
  - the numbered SQL placeholders of the profile upsert and the reorder update;
  - the photo subsystem: extension and URL helpers, the thumbnail key rewrite, listing, avatar upload, gallery upload, deletion with compaction and reordering.
- **Client pages:**
  - the chat list page: room ordering, relative time labels and the unread badge;
  - the onboarding wizard: step navigation and the interest-tag toggle.

## Module layout

- `Base`: Option and Result.
- `Seqs`: filters, distinctness and ranges.
- `Text`: JavaScript `trim`, `split`, `join` and decimal numbers.
- `Errors`: the error constructors of `errors.ts`.
- `ErrorHandler`: the 404 fallback and the error handler.
- `Credentials`: JWTs as a codec bound to one key.
- `CookieHeader`: `parseCookie` and `decodeURIComponent`.
- `Session`: the CSRF gate, `requireAuth` and the handshake guard.
- `AccountTokens`: email verification and password reset.
- `SqlParams`: placeholder numbering.
- `PhotoKeys`: storage keys and URLs.
- `PhotoRows`: the `photos` table and its queries.
- `PhotoPlans`: compaction and reorder plans, and the slot invariant.
- `Photos`: the photo handlers. The `PhotoStore` class holds the table, the upload directory and the id sequence, and its methods change them in place.
- `ChatList`.
- `Onboarding`: its `Wizard` class holds the page's state variables.

## What the model assumes

- **The database:** a sequence of rows, or a map keyed by token. Every statement of a handler takes effect in order.
- **Inputs that become parameters:**
  - the clock;
  - `Math.random`, folded with `Date.now()` into the `stamp` of new file names;
  - the image library's results;
  - the bcrypt hash;
  - `toLocaleDateString`;
  - the production flag.
- **JWTs:** a `Codec` whose decode inverts its encode (`Credentials.Sound`). Times are in seconds; a token dies at `iat + 900`.

### Where the model follows the code over the surrounding documentation

- A mutating request with a session cookie but no CSRF pair is refused with 403 `CSRF_INVALID`. This happens before `requireAuth` ever looks at the token. `Session.CsrfCheckedBeforeToken` states it.
- An internal failure's message is sent to the client as `details`.
- The chat list's sample data comment announces "7+", but the badge code caps at "5+", and the model follows the code.
- Thumbnail paths are never stored. They are derived from the storage key by a regular-expression rewrite, and `PhotoKeys.StoredThumbIsDerived` proves that the derived path is the one written.
- No handler uses a transaction.
- **Files are written before the cap check:**
  - An avatar refused with `MAX_PHOTOS_REACHED` leaves its two new files behind.
  - A gallery or avatar upload whose thumbnail write fails leaves its main file behind.
  - The contracts of `Photos.PhotoStore.UploadAvatar` and `Photos.PhotoStore.UploadGallery` state this.
- `GALLERY_FULL` can never be returned while the five-photo cap holds, as `PhotoPlans.FreePositionExists` shows.

## Model

| member | source | states |
|---|---|---|
| Errors.BadRequest | backend/src/errors.ts:22-23 | status 400 with exactly the code, message and details given |
| Errors.Unauthorized | backend/src/errors.ts:24-25 | status 401, the given (or default) code and message, no details |
| Errors.Forbidden | backend/src/errors.ts:26-27 | status 403, no details |
| Errors.NotFound | backend/src/errors.ts:28-29 | status 404, no details |
| Errors.Conflict | backend/src/errors.ts:30-31 | status 409, no details |
| Errors.Internal | backend/src/errors.ts:32-33 | code INTERNAL_ERROR, status 500, message and details as given |
| Errors.Defaults | backend/src/errors.ts:24-33 | the exact error each argument-less constructor builds |
| Errors.ConstructorsAreClassified | backend/src/errors.ts:22-33 | each constructor's status puts it in its own failure class; only 400 and 500 carry details |
| ErrorHandler.RouteNotFound | backend/src/server.ts:823-826 | an unmatched route becomes 404 NOT_FOUND "Not Found" |
| ErrorHandler.PresentDetails | backend/src/server.ts:840-841 | details are sent exactly when present and truthy |
| ErrorHandler.HandleError | backend/src/server.ts:830-842 | no response at all exactly when headers were already sent; otherwise a non-zero status and a non-empty message, a validation error as 400 VALIDATION_ERROR, an AppError's own code, and a plain error without a string code named ERROR exactly when its status is not 500; details only on validation errors and truthy AppError details |
| ErrorHandler.AppErrorIsRenderedAsIs | backend/src/server.ts:837-841 | an error with a status and message reaches the client with its own status, code, message and truthy details |
| ErrorHandler.ConstructorsOnTheWire | backend/src/server.ts:837-841 | each errors.ts constructor goes out with its fixed status and its code and message unchanged |
| ErrorHandler.InternalDetailsReachClient | backend/src/server.ts:841 | a non-empty internal message passed as details is sent to the client |
| ErrorHandler.MissingStatusIs500 | backend/src/server.ts:837-839 | an error without a status is a 500; a plain error gets INTERNAL_ERROR and the default message |
| ErrorHandler.StatusErrorKeepsStatus | backend/src/server.ts:31 | a body-parser error (400 for malformed JSON, 413 for a body over 1mb) keeps its status and goes out as ERROR with its message or "Error" |
| ErrorHandler.ErrorCodeIff | backend/src/server.ts:837-838 | a plain error without a string code gets the code ERROR if and only if it has a status other than 0 and 500 |
| Credentials.Sign | backend/src/server.ts:214-216 | with a sound codec the token is a compact JWT that decodes to the user's claims, issued now and expiring fifteen minutes later |
| Credentials.Verify | backend/src/server.ts:231 | accepts a token exactly when it decodes and its expiry is still ahead; otherwise malformed or expired |
| Credentials.SignThenVerify | backend/src/server.ts:214-216 | a signed token verifies to its own claims for fifteen minutes and is expired from then on |
| CookieHeader.DecodeUriComponent | backend/src/server.ts:784 | a decoded value is never longer than its escaped text |
| CookieHeader.AsciiEscape | backend/src/server.ts:784 | an escape `%XY` of a byte below 0x80 decodes to that one character, followed by the decoding of the rest |
| CookieHeader.TwoByteEscape | backend/src/server.ts:784 | the two escapes `%C3%A9` of a two-byte UTF-8 sequence decode to the single character U+00E9 |
| CookieHeader.DecodeWithoutEscapes | backend/src/server.ts:784 | a value without '%' decodes to itself |
| CookieHeader.PieceFields | backend/src/server.ts:782 | the name is the trimmed piece before its first '=', the raw value everything after it |
| CookieHeader.Cookies | backend/src/server.ts:777-787 | a missing or empty header gives the empty record, and a parsed record never holds the empty name |
| CookieHeader.ParseCookie | backend/src/server.ts:777-787 | the loop builds exactly the record the left fold over the pieces builds |
| CookieHeader.JarFailureSticks | backend/src/server.ts:781-785 | once a value fails to decode, the whole parse throws |
| CookieHeader.JarKeys | backend/src/server.ts:783-784 | the record's names are exactly the pieces' non-empty names |
| CookieHeader.JarLastWins | backend/src/server.ts:784 | a name maps to the decoded value of its last piece |
| CookieHeader.JarFailsIff | backend/src/server.ts:783-784 | parsing fails if and only if some named piece's value does not decode |
| CookieHeader.SinglePair | backend/src/server.ts:777-787 | a header holding one plain `name=value` pair parses to that single pair |
| CookieHeader.SingleFailingPair | backend/src/server.ts:777-787 | a header holding one pair whose value does not decode makes the whole parse fail |
| CookieHeader.MalformedEscape | backend/src/server.ts:784 | a `%` followed by non-hex characters is a malformed escape |
| Session.Response.Cookie | backend/src/server.ts:66-72 | appends one Set-Cookie entry and leaves the headers unchanged |
| Session.Response.SetHeader | backend/src/server.ts:89 | replaces one header and leaves the cookies unchanged |
| Session.Classify | backend/src/server.ts:94-95 | GET, HEAD and OPTIONS are safe and POST, PUT, PATCH and DELETE mutating, after upper-casing and defaulting to GET |
| Session.CsrfTokenToIssue | backend/src/server.ts:93-104 | a token is issued exactly on safe requests with a session; it is the existing cookie if non-empty, else a fresh one |
| Session.SetCsrfCookie | backend/src/server.ts:80-90 | the same token goes into the script-readable, strict, seven-day cookie and the X-CSRF-Token header |
| Session.EnsureCsrfToken | backend/src/server.ts:93-104 | always continues; writes the cookie and header exactly when a token is to be issued |
| Session.SetAuthCookie | backend/src/server.ts:60-73 | appends the HTTP-only, lax access-token cookie, fifteen minutes unless told otherwise |
| Session.RequireCsrf | backend/src/server.ts:107-119 | only a mutating request with a session is stopped, and then always with 403 CSRF_INVALID |
| Session.CsrfGate | backend/src/server.ts:107-119 | only mutating requests with a session are checked; they pass if and only if both tokens are present, non-empty and equal; failure is 403 CSRF_INVALID |
| Session.IssuedTokenPassesGate | backend/src/server.ts:93-119 | echoing the issued token in cookie and header passes the gate |
| Session.RequireAuth | backend/src/server.ts:227-237 | 401 exactly when the cookie is missing or empty or does not verify; otherwise the identity from the claims |
| Session.HandshakeGuard | backend/src/server.ts:789-802 | the connection is accepted if and only if the header parses, names a non-empty `access_token` and that token verifies; it then carries the identity from the claims, and every failure is the literal "Unauthorized" error |
| Session.GuardedRoute | backend/src/server.ts:122-123 | every failure is 403 CSRF_INVALID or 401; it succeeds if and only if the CSRF gate lets the request on and its session token verifies, and then yields the claims' identity |
| Session.NoSessionIsUnauthorized | backend/src/server.ts:107-111 | without a session cookie the CSRF gate lets the request by and requireAuth refuses it with 401 |
| Session.CsrfCheckedBeforeToken | backend/src/server.ts:122-123 | a mutating request with a session cookie but no matching CSRF pair gets 403 whatever its token |
| Session.LoginThenRequireAuth | backend/src/server.ts:214-237 | the cookie set at login authenticates its own user for fifteen minutes, then 401 |
| Session.LoginThenHandshake | backend/src/server.ts:789-802 | a handshake carrying the login cookie connects as that user until it expires |
| Session.NoCookieNoConnection | backend/src/server.ts:791-793 | a missing or empty cookie header is refused |
| Session.NoTokenNoConnection | backend/src/server.ts:791-793 | a header whose one cookie is not `access_token` is refused |
| Session.MalformedCookieNoConnection | backend/src/server.ts:790-801 | an `access_token` value that does not decode makes the parse throw, and the throw is refused as "Unauthorized" |
| Session.AuthCookieNameIsPlain | backend/src/server.ts:792 | the cookie name `access_token` has no whitespace at its start and no '=' or ';' |
| AccountTokens.VerificationRejection | backend/src/server.ts:447-449 | an unknown token is INVALID_TOKEN; a known one is refused exactly when expired |
| AccountTokens.ResetRejection | backend/src/server.ts:497-500 | accepted if and only if known, unused and unexpired; otherwise unknown, then used, then expired |
| AccountTokens.UsedTokenNeverAccepted | backend/src/server.ts:499 | a used reset token is refused as already used at any time |
| AccountTokens.AcceptanceIsMonotone | backend/src/server.ts:500 | a token accepted now would be accepted at any earlier time |
| AccountTokens.QueryToken | backend/src/server.ts:440-441 | a missing query token is empty; the result has no whitespace at either end, and a token without such whitespace is kept as it is |
| AccountTokens.ChosenToken | backend/src/server.ts:490 | the query token wins unless missing or empty, then the body token |
| AccountTokens.ResetIssues | backend/src/server.ts:488-491 | no issues exactly when the token is non-empty and the password has 8 to 128 characters; each failing field is named |
| AccountTokens.AccountStore.VerifyEmail | backend/src/server.ts:439-453 | the error cases in order; on success the token is deleted, the user marked verified, and the same link is invalid afterwards |
| AccountTokens.AccountStore.ResetPassword | backend/src/server.ts:489-505 | validation, then the token checks; it succeeds if and only if there are no validation issues and the chosen token is accepted; on success the hash changes and the token becomes already-used |
| SqlParams.PlaceholderRoundTrip | backend/src/server.ts:360 | `$k` reads back as parameter number k |
| SqlParams.UpsertPlaceholders | backend/src/server.ts:360 | one placeholder per column, the k-th naming parameter k |
| SqlParams.UpsertParams | backend/src/server.ts:367 | the user first, then each value in the order of its field |
| SqlParams.UpsertBindsColumns | backend/src/server.ts:359-367 | each inserted column's placeholder binds that column's own value, `user_id` the user |
| SqlParams.WhenClauses | backend/src/server.ts:742-744 | one clause per row; clause idx names parameters 2+idx and 2+n+idx |
| SqlParams.ReorderParams | backend/src/server.ts:741 | the user, then each current id, then each final position, then the id array |
| SqlParams.CaseBindsPlan | backend/src/server.ts:741-744 | each WHEN clause pairs a current id with its final position |
| SqlParams.CaseBindsFilter | backend/src/server.ts:741-747 | `$1` binds the owner and the ANY placeholder the current id array |
| PhotoKeys.ExtFromMime | backend/src/server.ts:519-524 | one of jpg, png, webp; jpg for any type not accepted |
| PhotoKeys.ExtFromMimeInvertible | backend/src/server.ts:519-524 | each accepted type gets its own extension, which gives the type back |
| PhotoKeys.PublicUrlRoundTrip | backend/src/server.ts:526-528 | the public URL gives its storage key back |
| PhotoKeys.ThumbKey | backend/src/server.ts:540 | a key without a trailing `.word` is unchanged; otherwise `_thumb` is put before the leftmost such extension |
| PhotoKeys.ThumbOfMainKey | backend/src/server.ts:556-558 | the thumbnail a listing derives from a main key is the thumbnail key the upload wrote |
| PhotoKeys.StoredThumbIsDerived | backend/src/server.ts:555-558 | the same for every extension the server writes |
| PhotoRows.FindPhoto | backend/src/server.ts:651-655 | the row with that id and owner, or none exists |
| PhotoRows.DeleteRow | backend/src/server.ts:664 | the rows left are exactly those other than the owner's row with that id, and the lookup no longer finds it |
| PhotoRows.DeleteAvatars | backend/src/server.ts:583 | the rows left are exactly those that are not the owner's avatars, and the owner has no avatar left |
| PhotoRows.Reassign | backend/src/server.ts:745-747 | only positions change, and only those of the owner's gallery rows named in the plan, which receive their planned position |
| PhotoRows.SetPosition | backend/src/server.ts:675 | rows with that id move to the position, every other row is unchanged |
| PhotoRows.SortByPosition | backend/src/server.ts:535 | a permutation of the rows in position order |
| PhotoRows.ReassignSelections | backend/src/server.ts:745-747 | the CASE update changes only the owner's gallery rows, and keeps keys unique |
| PhotoRows.SortedContiguous | backend/src/server.ts:752 | a contiguous gallery lists with positions 1, 2, ..., N |
| PhotoPlans.FreePositionExists | backend/src/server.ts:609-616 | below the five-photo cap a free gallery position always exists |
| PhotoPlans.GalleryInOrder | backend/src/server.ts:669 | exactly the owner's gallery rows, each once, sorted by position with nulls last |
| PhotoPlans.Compact | backend/src/server.ts:666-679 | only positions change, and rows other than the owner's gallery rows are unchanged |
| PhotoPlans.CompactionContiguous | backend/src/server.ts:666-679 | compaction numbers the gallery 1..N |
| PhotoPlans.CompactionKeepsOrder | backend/src/server.ts:668-678 | compaction keeps the relative order of the gallery |
| PhotoPlans.CompactionUpdatesChangedRows | backend/src/server.ts:674-676 | an UPDATE is issued for a row exactly when its position changes |
| PhotoPlans.BuildPlan | backend/src/server.ts:729-731 | the map holds each current row's position, overwritten by the requested ones |
| PhotoPlans.PlanIsAssignment | backend/src/server.ts:729-734 | the final positions are each row's requested position, else its current one |
| PhotoPlans.OneToNIsPermutation | backend/src/server.ts:735-738 | the check accepts exactly the sequences that use each position of 1..N once |
| PhotoPlans.ReorderContiguous | backend/src/server.ts:736-748 | an accepted plan leaves the gallery at positions exactly 1..N |
| PhotoPlans.ReorderPlacesRows | backend/src/server.ts:729-748 | requested rows land at their positions; rows not named keep everything |
| PhotoPlans.CurrentAssignmentIsNoOp | backend/src/server.ts:729-748 | submitting the current positions changes no row |
| PhotoPlans.DeleteKeepsSlots | backend/src/server.ts:646-685 | deletion, with compaction after a gallery photo, keeps the slot invariant |
| PhotoPlans.ReorderKeepsSlots | backend/src/server.ts:700-764 | an accepted reorder keeps the slot invariant |
| PhotoPlans.ReplaceAvatarShape | backend/src/server.ts:583-591 | after the replacement the gallery is unchanged and the one new row is the only avatar |
| Photos.ViewOf | backend/src/server.ts:540 | the URL gives back the storage key and the thumbnail URL its thumbnail key |
| Photos.GalleryListing | backend/src/server.ts:750-760 | exactly the owner's gallery rows, each once, sorted by position with nulls last, each with its own URLs; at positions 1..N when the gallery is contiguous |
| Photos.ListPhotos | backend/src/server.ts:531-545 | an avatar exactly when one exists, one of the owner's avatar rows; the gallery lists exactly the gallery rows, each once, sorted by position with nulls first, at 1..N under the slot invariant; every entry carries the public URL of its file and of its thumbnail |
| Photos.FirstFreePosition | backend/src/server.ts:613-616 | the lowest of 1..5 not in use, or none when all are |
| Photos.UnlinkAll | backend/src/server.ts:577-582 | removes each replaced avatar's main file and thumbnail and nothing else |
| Photos.CompactTable | backend/src/server.ts:666-679 | the loop yields the compacted table and issues updates exactly for the rows that move |
| Photos.CompactRanks | backend/src/server.ts:672-678 | walking the ordered gallery, every row ends at its rank and the UPDATE list names exactly the rows not already there |
| Photos.DeleteOutcome | backend/src/server.ts:664-679 | after the DELETE, and the compaction after a gallery photo, ids stay unique and below the next id, other owners' rows are untouched and the slot invariant holds |
| Photos.ReplaceOutcome | backend/src/server.ts:577-591 | after the replacement the owner has exactly the new avatar and its gallery, other owners are untouched and the slot invariant holds when the cap allowed the upload |
| Photos.RequestRejection | backend/src/server.ts:688-709 | the schema, then duplicate ids, then duplicate positions; no error exactly when all three hold |
| Photos.PlanReorder | backend/src/server.ts:719-738 | INVALID_IDS when an id is not in the gallery, else INVALID_POSITIONS unless the assignment is a permutation of 1..N; it succeeds if and only if both checks pass; on success the plan |
| Photos.ReorderOutcome | backend/src/server.ts:740-748 | an accepted plan's update is an outcome of the reorder specification and keeps the slot invariant |
| Photos.ReassignIsReordered | backend/src/server.ts:740-748 | the CASE update with an accepted plan changes only gallery positions, puts each requested row where asked and leaves the gallery at 1..N |
| Photos.ReorderNoOp | backend/src/server.ts:700-764 | an accepted reorder that submits the current positions leaves the table as it was |
| Photos.ReorderTable | backend/src/server.ts:700-748 | it succeeds if and only if the request passes its checks and the gallery is empty or every id is known and the positions are 1..N; the outcome satisfies the specification: each error in the handler's order, or only positions of the owner's gallery change, requested rows land where asked and the gallery ends 1..N |
| Photos.PhotoStore.constructor | backend/src/server.ts:125-128 | the start state: no photo rows, no stored files and the next id 1. The source only creates the uploads directory when it is missing; the empty start is the model's assumption |
| Photos.OrNull | backend/src/server.ts:636 | a present non-zero dimension is kept, anything else is null |
| Photos.PhotoStore.Insert | backend/src/server.ts:585-591 | appends one row with the next id |
| Photos.PhotoStore.WriteImages | backend/src/server.ts:562-567 | a failed resize writes nothing, a failed thumbnail leaves the main file alone, otherwise both files are written |
| Photos.PhotoStore.GallerySlot | backend/src/server.ts:602-616 | NO_FILE, UNSUPPORTED_TYPE, MAX_PHOTOS_REACHED at five rows, GALLERY_FULL only when 1..5 are all used, else the lowest free position |
| Photos.PhotoStore.InsertGallery | backend/src/server.ts:631-637 | appends one gallery row at the free position, which is N+1 under the slot invariant, and keeps the invariant |
| Photos.PhotoStore.UploadGallery | backend/src/server.ts:599-643 | it succeeds if and only if the file is an accepted image, the owner has fewer than five photos and both images are produced; each error case in order, including a failed thumbnail, which answers its error and leaves exactly the main file at the lowest free position behind; on success the row at the lowest free position (N+1 under the slot invariant), both files and the 201 body |
| Photos.PhotoStore.ReplaceAvatar | backend/src/server.ts:569-591 | the old avatars' files and rows go, one new avatar row remains |
| Photos.PhotoStore.StoreAvatar | backend/src/server.ts:569-591 | MAX_PHOTOS_REACHED exactly for a first avatar at five rows; otherwise the old avatars' rows and files go and one unplaced avatar remains |
| Photos.PhotoStore.UploadAvatar | backend/src/server.ts:548-596 | it succeeds if and only if the file is an accepted image, both images are produced and the owner has an avatar to replace or fewer than five photos; each error case with the files it leaves behind; on success exactly one unplaced avatar and the 201 body |
| Photos.PhotoStore.DeletePhoto | backend/src/server.ts:646-685 | invalid id, unknown photo, or the row and its files gone and a gallery compacted; it succeeds if and only if the id parses and names one of the owner's photos |
| Photos.PhotoStore.DeleteFound | backend/src/server.ts:664-679 | the row goes; after a gallery photo the rest is compacted with its UPDATE list; the slot invariant and other owners are kept |
| Photos.PhotoStore.DeleteAvatarRow | backend/src/server.ts:664 | the avatar row goes, nothing is renumbered, the table stays valid and the other owners are untouched |
| Photos.PhotoStore.DeleteGalleryRow | backend/src/server.ts:664-679 | the row goes and the rest of the gallery is compacted with its UPDATE list, the table stays valid and the other owners are untouched |
| Photos.PhotoStore.Reorder | backend/src/server.ts:700-764 | it succeeds if and only if the reorder is acceptable as ReorderTable says; the table changes as the reorder specification says (the ghost result `outcome` names the table or error reached), the response lists the new gallery |
| Photos.PhotoStore.InstallTable | backend/src/server.ts:748-760 | the accepted table replaces the old one and the answer lists its gallery; an error changes nothing |
| ChatList.CompareRooms | frontend/src/pages/ChatList/index.tsx:141-149 | negative exactly when the first room's group comes first (new matches, then more unread), zero exactly for the same group |
| ChatList.CompareIsRankOrder | frontend/src/pages/ChatList/index.tsx:141-149 | the comparator orders rooms exactly by group: new matches first, then more unread first |
| ChatList.NewMatchesFirst | frontend/src/pages/ChatList/index.tsx:142-148 | a room without messages precedes one with messages; two rooms with messages order by unread count |
| ChatList.CompareConsistent | frontend/src/pages/ChatList/index.tsx:141-149 | the comparator is antisymmetric and transitive |
| ChatList.SortRooms | frontend/src/pages/ChatList/index.tsx:141 | a sorted permutation that keeps the order within each group, as a stable sort does |
| ChatList.NewMatchesOnTop | frontend/src/pages/ChatList/index.tsx:140-149 | new matches all come first, then unread counts never increase |
| ChatList.ElapsedMinutes | frontend/src/pages/ChatList/index.tsx:153 | the floor of the difference in whole minutes |
| ChatList.Bucket | frontend/src/pages/ChatList/index.tsx:155-158 | the bucket of each range of minutes, with the floored hours or days |
| ChatList.FormatLastSeen | frontend/src/pages/ChatList/index.tsx:151-159 | "今" exactly when less than a minute has passed or the time lies ahead; otherwise the whole minutes followed by "分前" below an hour, the whole hours followed by "時間前" below a day, and the whole days followed by "日前" |
| ChatList.LabelIsNow | frontend/src/pages/ChatList/index.tsx:155 | only the under-a-minute bucket is labelled "今" |
| ChatList.LastSeenDeterminesBucket | frontend/src/pages/ChatList/index.tsx:151-159 | two equal labels denote the same bucket and count |
| ChatList.FormatMessageTime | frontend/src/pages/ChatList/index.tsx:161-169 | the last-seen label under a day, the locale date from then on |
| ChatList.BadgeLabel | frontend/src/pages/ChatList/index.tsx:239-241 | a badge exactly with unread messages, "5+" from five on, else the count itself |
| ChatList.BadgeDistinguishes | frontend/src/pages/ChatList/index.tsx:241 | counts below five are told apart and never read as the cap |
| Onboarding.ToggledTags | frontend/src/pages/Onboarding/index.tsx:112-117 | the tag is present afterwards exactly when it was absent; other tags keep their membership; an absent tag goes at the end |
| Onboarding.ToggleRemovesInOrder | frontend/src/pages/Onboarding/index.tsx:115 | removing a present tag keeps the rest in order |
| Onboarding.ToggleTwiceRestores | frontend/src/pages/Onboarding/index.tsx:115 | toggling an absent tag twice restores the list |
| Onboarding.ToggleTwicePresent | frontend/src/pages/Onboarding/index.tsx:115 | toggling a present tag twice moves it to the end, once |
| Onboarding.Wizard.constructor | frontend/src/pages/Onboarding/index.tsx:36-53 | step 0, nothing completed, the initial preferences |
| Onboarding.Wizard.NextStep | frontend/src/pages/Onboarding/index.tsx:94-99 | advances and records the step completed, except on the last step |
| Onboarding.Wizard.PrevStep | frontend/src/pages/Onboarding/index.tsx:101-105 | goes back except on the first step; completed steps stay |
| Onboarding.Wizard.SelectStep | frontend/src/pages/Onboarding/index.tsx:499 | a click on a step before the active one makes it active; any other click changes nothing; completed steps and preferences stay |
| Onboarding.Wizard.ToggleTag | frontend/src/pages/Onboarding/index.tsx:112-117 | only the tag list changes, as ToggledTags says |

## Left out

- **Not modelled:**
  - the HTTP server, routing, CORS, helmet, rate limiting, multer's size limit and Socket.IO events after the handshake;
  - the registration, login, `/auth/me`, profile, user-page and forgot-password handlers;
  - the mailer.
- The image library, the file system writes and the resizing are results given as parameters.
- `ensureUserDir` is not modelled; it only creates a directory.
- Cookie parsing for HTTP requests is done by the cookie-parser library, so a request's cookies are a given map.
- Credentials.Verify: the JWT signature and its base64url encoding are an abstract codec; only the round trip and the expiry are modelled.
- `crypto.randomBytes`, `Date.now` and `Math.random` are parameters, so token and name uniqueness is not modelled. Verification tokens are keyed by their text in a map.
- Photos.PhotoStore.DeletePhoto: an id that is finite but not an integer is modelled like a non-number (400), and an integer outside the range of the `id` column like an unknown photo (404). The source passes both on to the query, which the database would reject, so the source answers 500 in both cases.
- Photos.PhotoStore.UploadAvatar: a metadata failure after the main file is written is not modelled separately. Width and height come with the main image's result, so the model promises the files unchanged where the source would answer 500 and leave the main file on disk.
- Photos.PhotoStore.UploadGallery: the same holds for the metadata read after the main file is written (backend/src/server.ts:627-628). The model folds its failure into the main image's result and promises the files unchanged, while the source answers 500 and leaves the main file on disk.
- AccountTokens.ResetIssues: lengths count Dafny characters, while zod counts UTF-16 code units.
- Concurrency between requests and transactions are not modelled. Each handler runs to completion on its own.
- CookieHeader.DecodeUriComponent: malformed escapes make the whole parse fail, as `decodeURIComponent` throws and the guard turns that into "Unauthorized".
- CookieHeader.DecodeUriComponent: its only general contract is the length bound. A four-byte UTF-8 sequence becomes one Dafny character (a Unicode scalar value), where JavaScript builds two UTF-16 code units. The model therefore does not capture string lengths counted in UTF-16.
- Photos.PhotoStore.constructor: the `photos` table schema is not part of this model. The start state (no rows, ids from 1) is an assumption.
- CookieHeader.JarKeys: a piece named `__proto__` is stored like any other name. A JavaScript object literal would not store it as an own key. The guard reads only `access_token`, so its outcome is the same.
- Onboarding.Wizard.SelectStep: which step clicks the Mantine stepper passes on is library behaviour. With next steps not selectable, the model lets only earlier steps through.
- The React rendering, `handleComplete`, `getLocation` and the profile and location forms of the onboarding page are not modelled. Neither are the chat list's navigation and mock data.
