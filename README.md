# Video platform controllers in Dafny

This project models the controller layer of a video/social REST backend. The
four controllers are users, videos, comments and tweets. Each one validates a
request, runs one or two operations on a document table, and answers with a
result or an HTTP error status.

The model replaces the collaborators with abstract values:

- Each collection is a map from identifier to record, kept by a store class.
- Each listing is a pure function over the table as a sequence.
- Password hashing is an abstract `passwordMatches` function.
- JWT tokens are fresh values drawn from a serial counter. Whether `jwt.verify` succeeds is a boolean parameter.
- Every media upload is an `Option<Upload>` supplied by the caller of the method.
- The authenticated caller (`req.user._id`) is a parameter.

Errors are a `Result` whose `Error` case names the status:

- 400 `BadRequest`, 401 `Unauthorized`, 403 `Forbidden`, 404 `NotFound`, 409 `Conflict`, 500 `ServerError`.
- `Unhandled` stands for a runtime exception that is not an `ApiError`.

Files:

- `common.dfy` (`Common`): options, results, errors, identifiers, request ids (`IdParam`), uploads.
- `jsstring.dfy` (`JsString`): the `\s` class, `String.prototype.trim` and `toLowerCase`.
- `paging.dfy` (`Paging`): the `$match`/`$sort`/`$skip`/`$limit` pipeline shared by every listing.
- `users.dfy` (`Users`): e-mail validation, registration and the refresh-token lifecycle.
- `videos.dfy`, `comments.dfy`, `tweets.dfy` (`Videos`, `Comments`, `Tweets`): one module per controller.

The main results:

- **E-mail regex.** The e-mail regular expression accepts exactly the strings that have the shape of an address.
- **Registration checks.** Registration passes its 400 checks exactly when every present field has a non-whitespace character and the e-mail has that shape.
- **Token lifecycle:**
  - a refresh token works once;
  - logout revokes it;
  - after a login, the only refresh token that works for that user is the one just issued.
- **Listings.** Every listing holds only records in scope, at most `limit` of them. They are sorted ascending exactly when `sortType` is `"asc"` and are drawn from the table. The sort stage is one insertion sort, so the contracts fix one order of records with equal keys, which the database does not promise. Pages cut from one sorted listing tile it without gaps or repeats. Pages fetched by separate queries tile it too when no two records in scope share a sort key, whatever order each query gives them; with a shared key a record can be shown twice and another never.
- **Guarded mutations.** Every ownership-guarded mutation leaves the table unchanged when it fails, and otherwise changes only the named record and fields.

### Where the code does less than it appears to

- **The refresh response.** `refreshAccessToken` puts a `refreshToken` field in its response and cookie. `user.controller.js:205` fills it by destructuring a `newRefreshToken` field that `generateAccessAndRefreshTokens` never returns, so the refresh token in the response is undefined. The model keeps the rotation of the stored token and returns only the access token.
- **Unreachable 400 in deletes.** `deleteComment` and `deleteTweet` both have a "not found → 400" branch. It tests a query that was never awaited, which is always truthy, so these handlers answer 404 for a missing record as well as for a record the caller does not own.
- **No uniqueness check on update.** `updateAccountDetails` sets the e-mail with no check that another user holds it. The registration conflict test compares the username as given with stored usernames, which registration lower-cases; unless the schema lower-cases the field in the query too, `Alice` does not conflict with a stored `alice`.

## Model

| member | source | states |
|---|---|---|
| JsString.IsWhitespace | src/controllers/user.controller.js:10 | a definition: the ECMAScript WhiteSpace and LineTerminator code points, the class `\s` and what `trim` strips |
| Common.Truthy | src/controllers/video.controller.js:46 | a definition: JavaScript truthiness of an optional string field, false for absent and for `""` |
| JsString.SkipWhitespace | src/controllers/user.controller.js:40 | the first phase of `trim`: the index where leading whitespace ends; everything before it is whitespace and the character at it is not |
| JsString.TrailingStart | src/controllers/user.controller.js:40 | the second phase of `trim`: the index where trailing whitespace begins; everything from it on is whitespace and the character before it is not |
| JsString.Trim | src/controllers/user.controller.js:40 | the result of `trim` is no longer than its input, and neither end of it is whitespace |
| JsString.TrimDropsOnlyWhitespace | src/controllers/user.controller.js:40 | the result of `trim` is a slice of the input, and everything outside the slice is whitespace |
| JsString.TrimEmptyIffAllWhitespace | src/controllers/user.controller.js:40 | a field trims to `""` exactly when it consists only of whitespace |
| JsString.ToLowerCase | src/controllers/user.controller.js:85 | the same length; no upper-case ASCII letter remains; every upper-case letter becomes its lower-case letter; all other characters are kept |
| Paging.Match | src/controllers/video.controller.js:25 | `$match` keeps every record in scope exactly as often as the input holds it, and nothing else |
| Paging.Insert | src/controllers/video.controller.js:26 | inserting into a sorted sequence keeps it sorted and adds exactly that record |
| Paging.SortBy | src/controllers/video.controller.js:26 | `$sort` yields a sorted permutation of its input, ascending or descending on the key |
| Paging.Offset | src/controllers/video.controller.js:27 | a definition: the `$skip` of page `page` is `(page - 1) * limit` |
| Paging.Window | src/controllers/video.controller.js:27-28 | `$skip` then `$limit`: the records from position `skip` onwards, `min(limit, remaining)` of them, or none when the skip passes the end |
| Paging.Listing | src/controllers/video.controller.js:24-26 | matched and sorted: sorted, only records in scope, and every record in scope exactly as often as in the table |
| Paging.Paginate | src/controllers/video.controller.js:24-29 | one page holds at most `limit` records, all in scope and sorted, none more often than in the table; it is the window of the sorted listing at offset `(page - 1) * limit` |
| Paging.PagesTile | src/controllers/video.controller.js:27-28 | pages 1 to `n` cut from one sorted listing, laid end to end, are exactly its first `n * limit` records: no record is skipped or repeated |
| Paging.SortedUnique | src/controllers/video.controller.js:26 | two sorted orders of the same records are equal when no two different records share a key |
| Paging.ListingDetermined | src/controllers/video.controller.js:25-26 | when no two records in scope share a key, every sorted permutation of the matched records is the listing: `$sort` has only one possible result |
| Paging.SeparateQueriesTile | src/controllers/video.controller.js:25-28 | when no two records in scope share a key, pages 1 to `n` fetched by separate queries, each free to return any sorted order, are exactly the first `n * limit` records of the listing |
| Paging.TiesMayRepeatRecords | src/controllers/video.controller.js:26-28 | with two records of equal key and a page size of one, two queries may each return a sorted order and pages 1 and 2 show the same record twice |
| Users.IsValidEmail | src/controllers/user.controller.js:10 | a definition: the regex as a split at an `@` and a later `.` into three non-empty runs of `[^\s@]` covering the whole string |
| Users.ValidEmailHasShape | src/controllers/user.controller.js:9-12 | a string the regex accepts has no whitespace, exactly one `@` with text before it, and after it a `.` that is neither first nor last |
| Users.ShapeIsValidEmail | src/controllers/user.controller.js:9-12 | a string of that shape is accepted by the regex |
| Users.EmailValidIffShape | src/controllers/user.controller.js:9-12 | `isValidEmail` holds exactly for strings of that shape |
| Users.UndefinedIsNoEmail | src/controllers/user.controller.js:45 | an absent e-mail, tested as the text "undefined", is rejected |
| Users.BlankField | src/controllers/user.controller.js:40 | a definition: `field?.trim() === ""`, which only a present field can satisfy |
| Users.RegistrationRejected | src/controllers/user.controller.js:40-47 | a definition: some field is blank, or the e-mail (the text "undefined" when absent) fails the regex |
| Users.NotBlankIffHasText | src/controllers/user.controller.js:40 | a field passes the blank check exactly when it is absent or contains a non-whitespace character |
| Users.EmailCheckMeaning | src/controllers/user.controller.js:40-47 | the e-mail passes the blank check and the format check exactly when it is present and has the shape of an address |
| Users.RegistrationAccepted | src/controllers/user.controller.js:40-47 | registration passes both 400 checks exactly when the full name, username and password are each absent or contain a non-whitespace character, and the e-mail is present and has the shape of an address |
| Users.MatchesEither | src/controllers/user.controller.js:51 | a definition: the filter `{$or: [{username}, {email}]}`, where an absent field matches no user |
| Users.Found | src/controllers/user.controller.js:50-52 | a definition: some user of the table matches that filter |
| Users.CoverUrl | src/controllers/user.controller.js:82 | a definition: `coverImage?.url || ""` |
| Users.NewUser | src/controllers/user.controller.js:79-86 | a definition: the document `User.create` stores: the username lower-cased, the e-mail as given, no refresh token yet |
| Users.ViewOf | src/controllers/user.controller.js:89-91 | a definition: the user as `select("-password -refreshToken")` returns it, without password or refresh token |
| Users.UserStore.RegisterUser | src/controllers/user.controller.js:36-91 | the errors in source order: 400 for the field checks, 409 when a user matches the username or the e-mail, 400 without an avatar file or upload, `Unhandled` for an absent username; each failure adds nothing; success adds exactly one user at a fresh id and returns its view without password or token |
| Users.UserStore.GenerateAccessAndRefreshTokens | src/controllers/user.controller.js:14-31 | 500 for a missing user; otherwise a fresh pair whose refresh token becomes that user's stored token, and no other user changes |
| Users.UserStore.LoginUser | src/controllers/user.controller.js:106-132 | 400 with neither username nor e-mail, then 404 when no user matches, then 401 on a wrong password; each failure changes nothing; success issues a fresh pair for a matching user whose password matched and overwrites that user's slot |
| Users.UserStore.LogoutUser | src/controllers/user.controller.js:157-167 | the caller's refresh slot is emptied and nothing else changes |
| Users.UserStore.RefreshAccessToken | src/controllers/user.controller.js:183-220 | succeeds exactly when a token is presented, verifies, names an existing user and equals that user's stored token; success rotates the slot to a fresh token; every failure is 401 and changes nothing |
| Users.UserStore.ChangeCurrentPassword | src/controllers/user.controller.js:224-236 | 400 when the old password does not match, with nothing changed; otherwise only the password changes |
| Users.UserStore.UpdateAccountDetails | src/controllers/user.controller.js:244-263 | 400 unless both full name and e-mail are truthy; otherwise only those two fields change, and the answer keeps the refresh token (only the password is deselected) |
| Users.RefreshTwice | src/controllers/user.controller.js:196-205 | after a successful refresh, presenting the same token again fails with 401 |
| Users.LogoutThenRefresh | src/controllers/user.controller.js:157-198 | after logout no refresh token of that user is accepted |
| Users.LoginThenRefresh | src/controllers/user.controller.js:116-198 | after a successful login, a refresh token of that user works exactly when it is the one just issued and verifies; an earlier session's token is rejected |
| Videos.InListing | src/controllers/video.controller.js:16-21 | a definition: the `$match` stage, the owner and, when the query is truthy, the title filter; a video without a title matches no query |
| Videos.GetAllVideos | src/controllers/video.controller.js:9-29 | 400 exactly when `userId` is not an ObjectId; otherwise always a page: at most `limit` videos, all owned by `userId` and matching the title filter, sorted ascending exactly when `sortType` is "asc", drawn from the table, and equal to the page of the sorted scope at offset `(page - 1) * limit` |
| Videos.Toggled | src/controllers/video.controller.js:107 | the publish flag is negated and every other field is kept |
| Videos.VideoStore.PublishAVideo | src/controllers/video.controller.js:37-65 | 400 exactly when the title or description is `''`, a file is missing or an upload failed, with nothing created; otherwise one new video owned by the caller, with the duration of the upload, no views, published |
| Videos.VideoStore.GetVideoById | src/controllers/video.controller.js:81-89 | 404 for a missing video with nothing changed; otherwise the view count goes up by exactly one and no other field changes |
| Videos.VideoStore.TogglePublishStatus | src/controllers/video.controller.js:98-108 | 404 for a missing video, 403 for a non-owner, each with the table unchanged; the owner's video is toggled |
| Videos.VideoStore.UpdateVideo | src/controllers/video.controller.js:119-151 | 404, then 403, then 400 when nothing is given, then 400 for a failed thumbnail upload, each with the table unchanged; otherwise only the truthy given fields change |
| Videos.VideoStore.DeleteVideo | src/controllers/video.controller.js:162-179 | 400 for a malformed id; the video is removed exactly when it exists and the caller owns it, otherwise 404 with the table unchanged |
| Videos.ToggleTwice | src/controllers/video.controller.js:107-108 | two toggles by the owner restore the table |
| Videos.PublishThenDelete | src/controllers/video.controller.js:58-172 | a video published and then deleted by its owner leaves the table as it was |
| Comments.GetAllVideoComments | src/controllers/comment.controller.js:42-59 | 400 exactly when `videoId` is not an ObjectId; otherwise always a page: at most `limit` comments, all on that video, sorted ascending exactly when `sortType` is "asc", drawn from the table, and the page of the sorted scope at offset `(page - 1) * limit` |
| Comments.GetAllUserComments | src/controllers/comment.controller.js:64-81 | the same, scoped to the comments whose author is `userId` |
| Comments.CommentStore.PublishAComment | src/controllers/comment.controller.js:8-17 | 400 for falsy content or a missing video id, `Unhandled` for a malformed one, each creating nothing; otherwise one new comment by the caller on that video |
| Comments.CommentStore.DeleteComment | src/controllers/comment.controller.js:26-37 | the comment is removed exactly when it exists and the caller wrote it; every failure is 404, never 400, with the table unchanged |
| Comments.PublishThenDelete | src/controllers/comment.controller.js:13-34 | a comment published and then deleted by its author leaves the table as it was |
| Tweets.GetAllTweets | src/controllers/tweet.controller.js:24-41 | 400 exactly when `userId` is not an ObjectId; otherwise always a page: at most `limit` tweets, all owned by `userId`, sorted ascending exactly when `sortType` is "asc", drawn from the table, and the page of the sorted scope at offset `(page - 1) * limit` |
| Tweets.TweetStore.PublishATweet | src/controllers/tweet.controller.js:8-15 | 400 exactly for falsy content, creating nothing; otherwise one new tweet with that content owned by the caller |
| Tweets.TweetStore.DeleteTweet | src/controllers/tweet.controller.js:47-57 | the tweet is removed exactly when it exists and the caller owns it; every failure is 404, never 400, with the table unchanged |
| Tweets.TweetStore.UpdateATweet | src/controllers/tweet.controller.js:63-73 | 400 for a missing tweet and 400 for a non-owner, each with the table unchanged; otherwise the content becomes the request's content, even absent, and the owner stays |
| Tweets.EditByOtherUser | src/controllers/tweet.controller.js:65-73 | after "hi" is published and edited to "bye" by its owner, an edit by another user fails with 400 and the content stays "bye" |
| Tweets.PublishThenDelete | src/controllers/tweet.controller.js:12-55 | a tweet published and then deleted by its owner leaves the table as it was |

## Left out

- Cookies, the `ApiResponse` envelope, HTTP status codes of successful answers and `console.log` are not behaviour of the model. The access and refresh cookies set at login and refresh, and cleared at logout, are left out.
- Users.UserStore.LoginUser: when several users match the username or the e-mail, `findOne` returns the first in storage order; the model may pick any of them.
- Users.UserStore.RefreshAccessToken: returns only the access token. The refresh token the source puts in the response and the cookie is undefined (`user.controller.js:205`), and only the rotation of the stored token is modelled.
- `getUserChannelProfile` is not modelled. Its `$match` tests a value unrelated to the requested username (`user.controller.js:325`).
- `getCurrentUser` is not modelled: it only echoes the authenticated user.
- `updateUserAvatar` and `updateUserCoverImage` are not modelled. They only replace one URL after an upload.
- The `verifyJWT` middleware and the route files are left out; the caller identity is a parameter.
- Schemas are not modelled: required fields, unique indexes, setters and default values. In particular, the model does not reject a duplicate e-mail that a unique index would reject. The video defaults are taken as no views and published.
- The password hash and `isPasswordCorrect` are the abstract `passwordMatches`.
- JWT signing, expiry and claims are left out. Every issued token is distinct, drawn from a serial counter; real tokens signed within the same second with the same claims could coincide.
- Media uploads are parameters. Files uploaded before a later check fails are not cleaned up by the source, and they are not modelled.
- `req.files?.avatar[0]?.path`, `req.files?.videoFile[0].path` and `req.files?.thumbnail[0].path` throw a TypeError when other files are present but that one is missing. The model treats this case as a missing file.
- `parseInt` of `page` and `limit`, and the NaN or negative values it can produce, are left out. The listings require `page >= 1` and `limit >= 1`, and the defaults 1 and 10 are left to the caller.
- `sortBy` is an abstract integer key.
- Paging.Paginate: MongoDB does not promise an order for records with equal sort keys, but the model's `$sort` is one insertion sort, so the listing contracts fix one tie order. Paging.ListingDetermined and Paging.SeparateQueriesTile state what holds for every tie order when keys in scope are unique; with shared keys, Paging.TiesMayRepeatRecords shows that separate queries need not tile.
- The case-insensitive `$regex` title filter of `getAllVideos` is the abstract `titleMatches`.
- A field given as `undefined` in a MongoDB filter is modelled as matching no record.
- Endpoints that never call `ObjectId.isValid` take a well-formed identifier: `getVideoById`, `togglePublishStatus`, `updateVideo`, `deleteComment`, `deleteTweet` and `updateATweet`. A cast error on a malformed id at these endpoints is not modelled.
- Request fields that are not strings (arrays or numbers in a JSON body) are left out.
- JsString.ToLowerCase: lower-cases ASCII letters only; the full Unicode case mapping of `toLowerCase` is not modelled.
- Concurrency and lost updates between a read and the following save are left out; every handler runs alone.
- The 500 branches after a successful create (`findById` of the new document returning nothing) cannot be reached in a sequential table and are left out.
