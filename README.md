# Authentication core of holbertonschool-backend-user-data, in Dafny

This project models the parts of the user-data back end that decide who a request
belongs to, and proves properties of them:

- the Basic-Auth credential pipeline of `BasicAuth` (RFC 7617, section 2): strip the
  `Basic ` prefix, Base64-decode (RFC 4648, section 4) and read the bytes as UTF-8,
  split at the first colon, and check the password of the first user the search
  returns (modules `BasicAuth`, `Base64`, `Utf8`, `Strings`);
- the session table of `SessionAuth`, a map from session id to user id with create,
  lookup and destroy (module `Session`, class `SessionAuth`);
- the path-exclusion rule `require_auth` and the request accessors of `Auth`
  (module `Auth`);
- the log redaction `filter_datum` (module `FilteredLogger`);
- the users table of `DB`: creation, `add_user`, `find_user_by` and `update_user` over
  an in-memory sequence of rows (module `Db`, class `DB`).

Python's dynamic arguments are `Values.Value` (`NoneValue`, `Str`, `Int` for the
database's integer ids, or `Other` standing for every other object), so the source's `is None` and
`type(x) != str` checks are written out. Exceptions become `Result`/`Decision`
values. The user search, `User.get` and `is_valid_password` belong to model classes
that are not part of this model; they are function parameters (oracles). uuid4's
session id and the database's new row id are parameters with a freshness
precondition. The cookie name that `session_cookie` reads from the environment is a
parameter.

Module layout, one file each: `values.dfy`, `strings.dfy`, `utf8.dfy`, `base64.dfy`,
`auth.dfy`, `basic_auth.dfy`, `session_auth.dfy`, `filtered_logger.dfy`, `db.dfy`.

Four behaviours of the code that the model keeps:
- `require_auth` on the empty path raises IndexError when `excluded_paths` is not None and `""` is not listed. It does not return True.
- The slash tolerance is one-directional. A listed `/x` does not exclude `/x/`.
- `create_session` accepts the empty string as a user id.
- The Basic-Auth user id is `split(":")[0]` and the password is the rest joined with `:`. The model proves this is the same as splitting at the first colon.

## Model

| member | source | states |
|---|---|---|
| Strings.Take | 0x01-Basic_authentication/api/v1/auth/basic_auth.py:32 | Python's `s[0:6]`: a prefix of the string, clamped to its length |
| Strings.Split | 0x01-Basic_authentication/api/v1/auth/basic_auth.py:80 | `split(":")` yields at least one piece, no piece holds the separator, and there is one piece exactly when the separator is absent |
| Strings.Join | 0x01-Basic_authentication/api/v1/auth/basic_auth.py:81 | `":".join(parts)`: when there is at least one part and no part holds the separator, splitting the joined string gives back exactly the parts; with JoinSplit, join and split are inverse |
| Strings.JoinSplit | 0x01-Basic_authentication/api/v1/auth/basic_auth.py:80-81 | joining the pieces of a split with the same separator gives back the original string |
| Utf8.Decode | 0x01-Basic_authentication/api/v1/auth/basic_auth.py:54 | strict UTF-8 decoding; every byte string it accepts is exactly the encoding of the text it returns |
| Utf8.DecodeOneEncodes | 0x01-Basic_authentication/api/v1/auth/basic_auth.py:54 | one accepted sequence (no overlong form, surrogate or value above U+10FFFF) re-encodes to the same bytes |
| Utf8.EncodeCharDecodes | 0x01-Basic_authentication/api/v1/auth/basic_auth.py:54 | the encoding of any character announces its own length in its lead byte and decodes back to that character |
| Utf8.DecodeEncode | 0x01-Basic_authentication/api/v1/auth/basic_auth.py:54 | decoding the UTF-8 encoding of any string gives back that string |
| Base64.SextetValue | 0x01-Basic_authentication/api/v1/auth/basic_auth.py:54 | an alphabet character carries a 6-bit value; `=` and other characters carry none |
| Base64.SextetChar | 0x01-Basic_authentication/api/v1/auth/basic_auth.py:54 | the alphabet character for a 6-bit value reads back as that value |
| Base64.Decode | 0x01-Basic_authentication/api/v1/auth/basic_auth.py:54 | a decoded text is a whole number of 4-character groups, 3 bytes per group less at most 2 bytes of padding |
| Base64.Encode | 0x01-Basic_authentication/api/v1/auth/basic_auth.py:54 | the canonical encoding has 4 characters per started group of 3 bytes |
| Base64.GroupDecodes | 0x01-Basic_authentication/api/v1/auth/basic_auth.py:54 | a full encoded group holds no padding and decodes to its three bytes |
| Base64.TailDecodes | 0x01-Basic_authentication/api/v1/auth/basic_auth.py:54 | a padded final group decodes to its one or two bytes |
| Base64.DecodeEncode | 0x01-Basic_authentication/api/v1/auth/basic_auth.py:54 | decoding the canonical encoding of any byte string gives back those bytes |
| BasicAuth.ExtractBase64AuthorizationHeader | 0x01-Basic_authentication/api/v1/auth/basic_auth.py:28-33 | None for None, a non-str, or a str whose first six characters are not exactly `Basic ` (case-sensitive, short strings included); otherwise the header is `Basic ` followed by the result |
| BasicAuth.ExtractAfterPrefix | 0x01-Basic_authentication/api/v1/auth/basic_auth.py:32-33 | for any t, extracting from `Basic ` + t returns exactly t |
| BasicAuth.DecodeBase64AuthorizationHeader | 0x01-Basic_authentication/api/v1/auth/basic_auth.py:48-56 | never raises: None exactly for None, a non-str, invalid Base64 or invalid UTF-8; a text result is what the token's bytes encode |
| BasicAuth.DecodeCanonical | 0x01-Basic_authentication/api/v1/auth/basic_auth.py:53-54 | the canonical Base64 encoding of the UTF-8 form of any string s decodes to s |
| BasicAuth.ExtractUserCredentials | 0x01-Basic_authentication/api/v1/auth/basic_auth.py:73-81 | (None, None) exactly for None, a non-str, or a str without `:`; otherwise an email without `:` and a password with email + ":" + password equal to the input |
| BasicAuth.CredentialsSplitAtFirstColon | 0x01-Basic_authentication/api/v1/auth/basic_auth.py:80-81 | for a colon-free email and any password, later colons included, the split gives back exactly (email, password) |
| BasicAuth.PrefixBeforeColon | 0x01-Basic_authentication/api/v1/auth/basic_auth.py:80-81 | a string has only one way of being written as colon-free text, `:`, rest |
| BasicAuth.NoColonNoCredentials | 0x01-Basic_authentication/api/v1/auth/basic_auth.py:77-78 | a header whose decoded text has no colon, such as `Basic YWJj`, gives (None, None) |
| BasicAuth.UserObjectFromCredentials | 0x01-Basic_authentication/api/v1/auth/basic_auth.py:99-110 | a user exactly when email and password are str, the search does not raise, returns at least one user, and the first one accepts the password; that user is the result |
| BasicAuth.FirstCandidateOnly | 0x01-Basic_authentication/api/v1/auth/basic_auth.py:107-110 | when the first candidate rejects the password the answer is None, even if the second would accept it |
| BasicAuth.CurrentUser | 0x01-Basic_authentication/api/v1/auth/basic_auth.py:121-127 | a user only for a request whose Authorization header is `Basic ` + Base64 of UTF-8 `email:password`, with the user first in the search for that email and accepting that password |
| BasicAuth.CurrentUserOfCredentials | 0x01-Basic_authentication/api/v1/auth/basic_auth.py:121-127 | conversely, a request carrying credentials is answered by the first-candidate check on exactly those credentials |
| BasicAuth.CanonicalHeaderCarries | 0x01-Basic_authentication/api/v1/auth/basic_auth.py:121-124 | a header built as `Basic ` + Base64(UTF-8(email:password)) carries exactly that email and password |
| Auth.LastChar | 0x02-Session_authentication/api/v1/auth/auth.py:24 | Python's `path[-1]`: the last character, and nothing (an IndexError) for the empty string |
| Auth.RequireAuth | 0x02-Session_authentication/api/v1/auth/auth.py:20-29 | True for an absent list or absent path; IndexError exactly for the empty path when `""` is not listed; False exactly when the path is listed, or lacks a trailing slash and its slashed form is listed |
| Auth.TrailingSlashNotTolerated | 0x02-Session_authentication/api/v1/auth/auth.py:24-29 | listing `p` does not exclude `p/`: the tolerance is one-directional |
| Auth.MissingSlashTolerated | 0x02-Session_authentication/api/v1/auth/auth.py:24-27 | listing `p/` excludes `p` when `p` does not end in a slash |
| Auth.EmptyExclusionList | 0x02-Session_authentication/api/v1/auth/auth.py:20-24 | an empty list is not special: a non-empty path needs authentication, the empty path raises IndexError |
| Auth.RequireAuthIntended | 0x02-Session_authentication/api/v1/auth/auth.py:12-18 | the documented rule: True for an absent or empty list and an absent path, False exactly for a slash-tolerantly excluded path |
| Auth.RequireAuthAgrees | 0x02-Session_authentication/api/v1/auth/auth.py:11-29 | wherever the written rule does not raise, it answers as the documented rule does |
| Auth.AuthorizationHeader | 0x02-Session_authentication/api/v1/auth/auth.py:38-42 | None exactly for a None request or a missing Authorization header, the header's value otherwise |
| Auth.SessionCookie | 0x02-Session_authentication/api/v1/auth/auth.py:57-59 | None exactly for a None request or a missing cookie of that name, the cookie's value otherwise |
| Session.LookupSession | 0x02-Session_authentication/api/v1/auth/session_auth.py:45-50 | None for a None or non-str id and for an unknown key; the mapped user id for a live session |
| Session.SessionAuth.constructor | 0x02-Session_authentication/api/v1/auth/session_auth.py:10 | the session table starts empty |
| Session.SessionAuth.CreateSession | 0x02-Session_authentication/api/v1/auth/session_auth.py:25-32 | None and no change for a None or non-str user id; otherwise returns the fresh id, adds exactly it with the user id, keeps every other entry and grows the table by one |
| Session.SessionAuth.UserIdForSessionId | 0x02-Session_authentication/api/v1/auth/session_auth.py:45-50 | answers the lookup of the id in the current table and changes nothing |
| Session.SessionAuth.CurrentUser | 0x02-Session_authentication/api/v1/auth/session_auth.py:56-58 | equals `User.get` of the lookup of the request's session cookie |
| Session.SessionAuth.DestroySession | 0x02-Session_authentication/api/v1/auth/session_auth.py:64-72 | True exactly when the request has the cookie and it is a live key; then exactly that key is removed; otherwise False and no change |
| Session.TwoSessionsForOneUser | 0x02-Session_authentication/api/v1/auth/session_auth.py:22-23 | two creates for one user give two keys mapped to that user; destroying one leaves the other resolvable, and a second destroy answers False |
| FilteredLogger.ValueLength | 0x00-personal_data/filtered_logger.py:53 | the lazy `.*?` before the separator: the shortest newline-free run after which the separator starts, or none when no such run exists |
| FilteredLogger.ValueLengthIs | 0x00-personal_data/filtered_logger.py:53 | the lazy match ends exactly at the first separator position reached without crossing a newline |
| FilteredLogger.SeparatorInsideValue | 0x00-personal_data/filtered_logger.py:53 | whether a separator starts inside a value does not depend on the text after the separator |
| FilteredLogger.SingleCharacterSeparator | 0x00-personal_data/filtered_logger.py:34 | with a one-character separator such as `;`, the shortest run is a value that does not contain the separator |
| FilteredLogger.RedactAtMatch | 0x00-personal_data/filtered_logger.py:53-55 | `field=` + value + separator, the value being the shortest newline-free run, becomes `field=` + redaction + separator, and the scan resumes after the separator |
| FilteredLogger.RedactSkips | 0x00-personal_data/filtered_logger.py:53 | a character where `field=` does not start is kept |
| FilteredLogger.RedactKeepsPrefix | 0x00-personal_data/filtered_logger.py:53-55 | text in which no `field=` starts is kept unchanged and in order |
| FilteredLogger.RedactWithoutKey | 0x00-personal_data/filtered_logger.py:53-55 | a message in which `field=` does not occur is returned unchanged |
| FilteredLogger.Redact | 0x00-personal_data/filtered_logger.py:53-55 | one `re.sub` pass; it has no contract of its own and is characterised by RedactAtMatch (a match is rewritten), RedactSkips and RedactKeepsPrefix (other text is kept), RedactWithoutKey, RedactWithoutSeparator and TailWithoutSeparatorKept (a `field=...` that no separator closes is kept) and NotAnchored |
| FilteredLogger.RedactWithoutSeparator | 0x00-personal_data/filtered_logger.py:53 | a message in which a non-empty separator never occurs is returned unchanged |
| FilteredLogger.TailWithoutSeparatorKept | 0x00-personal_data/filtered_logger.py:53-55 | for a one-character separator, a tail that holds no separator passes through untouched: a `field=...` whose value runs into it, or lies wholly in it, is left unredacted, as `email=x@y` in `name=bob;email=x@y` |
| FilteredLogger.NotAnchored | 0x00-personal_data/filtered_logger.py:53 | matching is not anchored: field `name` also redacts `username=value;` |
| FilteredLogger.FilterAllConcat | 0x00-personal_data/filtered_logger.py:52-55 | fields are applied in list order, each pass on the previous pass's output, so running two lists is running their concatenation |
| FilteredLogger.FilterAll | 0x00-personal_data/filtered_logger.py:52-56 | the passes in list order, each on the previous pass's output (FilterAllConcat); a message in which no listed `field=` occurs is returned unchanged, and an empty field list changes nothing |
| FilteredLogger.FilterDatum | 0x00-personal_data/filtered_logger.py:48-56 | the loop over the fields computes the passes in list order, for fields and a separator free of regex metacharacters and a redaction without backslashes |
| Db.Matches | 0x03-user_authentication_service/db.py:61 | `filter_by(**filters)`, with values compared exactly: a row is accepted exactly when the filters are a sub-map of it, that is, writing the filters over the row changes nothing |
| Db.FirstMatch | 0x03-user_authentication_service/db.py:61 | the position of the first row matching all filters, every earlier row failing; or none when no row matches |
| Db.SetAttributes | 0x03-user_authentication_service/db.py:82-83 | the `setattr` loop leaves the row with the given attributes set and every other attribute unchanged |
| Db.DB.constructor | 0x03-user_authentication_service/db.py:17-23 | a fresh table is empty |
| Db.DB.AddUser | 0x03-user_authentication_service/db.py:40-43 | appends exactly one row, with the given email and hashed password, the new id and None elsewhere, and returns it; existing rows are unchanged |
| Db.DB.FindIndexBy | 0x03-user_authentication_service/db.py:52-67 | InvalidRequestError exactly for no filters or a filter that is not a column; a position exactly when the filters are valid and some row matches, and then it is the first matching row; NoResultFound otherwise, never ValueError |
| Db.DB.FindUserBy | 0x03-user_authentication_service/db.py:52-67 | InvalidRequestError exactly for no filters or a filter that is not a column; otherwise the first row matching all filters, or NoResultFound exactly when none matches |
| Db.DB.UpdateUser | 0x03-user_authentication_service/db.py:75-85 | NoResultFound and no change for an unknown id; ValueError and no change if any key is not a column; otherwise exactly that row takes the given values and the other rows are unchanged |

## Left out

- `RedactingFormatter`, `get_logger`, `get_db` and `main` in `0x00-personal_data/filtered_logger.py` are not modelled. They are logging, MySQL and environment I/O.
- `0x00-personal_data/encrypt_password.py` is not modelled. It wraps bcrypt with random salts, and the password check is an oracle parameter here.
- `0x03-user_authentication_service/app.py` is not modelled. It is Flask routing over an `Auth` class that is not part of this model.
- Models `User`, `User.search` and `User.get` are not part of this model. The search, `User.get` and `is_valid_password` are oracle parameters.
- The `auth.py` that 0x01's `BasicAuth` inherits from is not part of this model. Its `authorization_header` is taken to be the 0x02 one, `Auth.AuthorizationHeader`.
- `Auth.current_user` (auth.py:44-49) is not modelled. It always returns None, and both subclasses override it.
- Regex semantics for fields or separators with metacharacters are not modelled. `FilterDatum` requires literal fields and separator, and a redaction without backslashes. The call site meets this: the fields at filtered_logger.py:25 and the separator `;` at line 34.
- BasicAuth.DecodeBase64AuthorizationHeader: Python's non-strict `b64decode` accepts malformed tokens that the model rejects with None. It discards characters outside the alphabet. It skips every `=` that does not complete a group's padding, so `YWJj=`, `Y=WJj` and `YW=Jj` all give `abc`. It stops at the first completed padding and drops the rest, so `YQ==YWJj` gives `a`. It agrees with Python on well-formed input, including ignoring non-zero unused pad bits.
- Base64.Decode: only well-formed RFC 4648 section 4 text is accepted, as above. Strings, bytes-like and non-ASCII inputs are not told apart: a non-ASCII token is rejected, as Python's ValueError is.
- Auth.AuthorizationHeader: header names are exact map keys. Flask's case-insensitive header lookup is not modelled.
- Auth.SessionCookie: the cookie name that `getenv('SESSION_NAME')` reads is a string parameter. The case where the variable is unset (a lookup of None) is not modelled.
- Session.SessionAuth.CreateSession: uuid4 is replaced by a parameter with a freshness precondition. Collisions, which Python would silently overwrite, are not modelled.
- Session.SessionAuth: the source's dict is shared by all instances at class level. Here it is one object that every caller shares. Concurrent access is not modelled, only sequential calls.
- Db.DB.AddUser: the id the database assigns is a parameter, required to be unused. The SQLAlchemy engine, sessions, the sqlite file and `commit` are not modelled. Neither are errors raised at commit time, such as an IntegrityError.
- Db.Matches: filters compare `Value`s exactly. SQLite's `=` converts across types before comparing, so `id="1"` finds the row with integer id 1 and `email=5` finds an email `"5"`; that conversion is not modelled, and here `Str("1")` never matches `Int(1)` (so `UpdateUser` with a str id gives NoResultFound).
- Db.DB.FindUserBy: the mapping of a TypeError from the query to InvalidRequestError (db.py:62-63) is not modelled. Row order is taken to be insertion order.
- Db.DB.UpdateUser: rows are values here, not shared objects. Other holders of the `User` object returned earlier do not see the update.
- Auth.RequireAuth: `path` is None or a str, and `excluded_paths` is None or a list of str. Other argument types are not modelled.

## Findings

| source | as written | input that shows it | evidently intended | confidence | as-written member | corrected member |
|---|---|---|---|---|---|---|
| 0x02-Session_authentication/api/v1/auth/auth.py:20-24 | `excluded_paths is None or []` only tests None. The empty path then reaches `path[-1]`. | `require_auth("", [])` raises IndexError | True for an empty list, as the docstring at lines 15-16 says. No exception for the empty path. | not executed | Auth.EmptyExclusionList | Auth.RequireAuthIntended |
