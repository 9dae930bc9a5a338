# Resume analyser accounts and storage, modelled in Dafny

The system is a Streamlit web application in which job seekers create an
account, sign in, upload a resume and receive an analysis and job
recommendations. This project models its core logic:

- the registration page: the email check, the password policy, the ordered list
  of form errors, and the in-memory `registered_users` map it adds accounts to;
- the sign-in page: the email check, the look-up and password comparison that
  set `user` and `logged_in` in the session, and the log-out button;
- the account helpers of the backend: the unsalted SHA-256 hex digest of a
  password, its check, and the `users` table they write to and read from;
- the SQLite layer: the `users`, `resume_analysis` and `job_recommendations`
  tables with their AUTOINCREMENT ids and UNIQUE email, and the helpers that
  insert, update and query them;
- resume text extraction: the dispatch on the lower-cased file extension, the
  PDF page loop, and the whitespace normalisation `" ".join(text.split())`;
- the masking of emails in the dashboard's demo list of users.

The modules follow the program:

- `Wrappers` holds `Option`.
- `PyText` holds the Python string operations the code relies on: `strip`,
  `find`, `rfind`, `lower`, `split` and `" ".join`.
- `EmailPattern` is the regular expression shared by both pages.
- `SessionState` is `st.session_state`, a class with the three keys the pages use.
- `Registration`, `Login` and `Dashboard` model `frontend/`.
- `Auth` models `backend/auth.py`.
- `ResumeParser` models `backend/resume_parser.py`.
- `Database` models `utils/database.py`.

Code that changes state is written as classes with `modifies` clauses or as
methods with loops:

- the registration and login handlers and log-out, over a `Session`;
- `password_issues` and its successive `append`s;
- the PDF page loop;
- the two table classes.

Each such method is tied by its `ensures` to a specification function, and the
properties are proved about those functions as lemmas.

SHA-256 is an uninterpreted parameter `sha: Sha256`. Nothing is assumed about
it, in particular not that it is injective. What the PDF and DOCX libraries
yield for a file is a `Source` parameter. Timestamps are a parameter `now`.

The model follows the code as written:

- Emails are compared exactly, case included, as dictionary keys and in `WHERE email = ?`.
- The password policy has no lower-case rule and reports every broken rule, not only the first.
- Registration reports errors in the order name, email, password rules, then the confirmation mismatch.
- Sign-in names the failure: "no account" and "incorrect password" are different messages.
- The password hash is an unsalted SHA-256 hex digest.
- The registration page keeps the plaintext password in `registered_users`, and sign-in compares plaintext.

`backend/models.py` names the table with `_tablename_` rather than
`__tablename__`. The model gives `Auth` the table that was evidently intended:
`users`, with a unique email.

## Model

| member | source | states |
|---|---|---|
| PyText.Strip | frontend/registration.py:53 | `full_name.strip()` is empty exactly when the name is all whitespace; otherwise it starts and ends with a non-whitespace character |
| PyText.StripRemovesOnlyEdges | frontend/registration.py:72 | the stored name is a contiguous part of the typed one, with only whitespace removed before and after it |
| PyText.StripIdempotent | frontend/registration.py:72 | stripping a stripped name changes nothing |
| PyText.Find | frontend/dashboard.py:114 | the index of the first occurrence of a character, and -1 exactly when it does not occur |
| PyText.RFind | backend/resume_parser.py:12 | the index of the last occurrence of a character, and -1 exactly when it does not occur |
| PyText.Lower | backend/resume_parser.py:12 | lower-casing keeps the length and maps each character on its own |
| PyText.Words | backend/resume_parser.py:39 | every piece `split()` returns is non-empty and free of whitespace |
| PyText.Normalize | backend/resume_parser.py:39 | `" ".join(text.split())` is always normal: single spaces between words, none at the ends |
| PyText.NormalizeKeepsWords | backend/resume_parser.py:39 | normalising whitespace keeps the sequence of words exactly |
| PyText.NormalizeIsNormal | backend/resume_parser.py:39 | the normalised text has no whitespace other than single spaces between words, and none at either end |
| PyText.NormalizeIdempotent | backend/resume_parser.py:39 | normalising twice gives the same text as normalising once |
| PyText.NormalIsFixedPoint | backend/resume_parser.py:39 | text already in that form is left unchanged |
| PyText.WordsAtSpace | backend/resume_parser.py:39 | splitting text that has a whitespace character in it gives the words before it followed by the words after it |
| PyText.WordsAfterSpace | backend/resume_parser.py:39 | text that is empty or ends in whitespace, followed by more text, has the words of both in order |
| EmailPattern.MatchesIffSplit | frontend/registration.py:20 | the pattern accepts exactly the strings with a non-empty name-character part before the first `@`, and a domain whose last `.` is preceded by name characters and followed by word characters |
| EmailPattern.MatchAtIsSplit | frontend/registration.py:20 | in any match, the `@` is the first `@` and the `.` is the last `.` after it |
| EmailPattern.MatchEndsInWordChar | frontend/registration.py:20 | a match ends with a word character |
| EmailPattern.AcceptsTrailingNewline | frontend/registration.py:20 | because of `$`, a match followed by one newline is accepted although it does not match the pattern itself |
| EmailPattern.MatchedShape | frontend/registration.py:20 | a match has exactly one `@`, a non-empty part before it, and no whitespace |
| EmailPattern.AcceptedShape | frontend/registration.py:20 | an accepted string has exactly one `@` and a non-empty part before it; its only possible whitespace is a final newline |
| EmailPattern.NewlineShape | frontend/registration.py:20 | a match followed by one newline has exactly one `@`, a non-empty part before it, and no whitespace but the newline |
| Registration.ValidEmail | frontend/registration.py:19-20 | because the regex is applied to `s or ""`, `None` and `""` are never accepted |
| Registration.ValidEmailShape | frontend/registration.py:19-20 | `valid_email` rejects `None` and `""`; an accepted email has exactly one `@` with a non-empty part before it |
| Registration.PasswordIssues | frontend/registration.py:22-32 | the list built by the four conditional appends is exactly the rules the password breaks, in the order they are checked |
| Registration.ViolatedRulesExact | frontend/registration.py:22-32 | a rule is reported if and only if the password breaks it |
| Registration.ViolatedRulesOrdered | frontend/registration.py:22-32 | the reported rules follow the policy's order, none twice, so at most four |
| Registration.NoIssuesIffStrong | frontend/registration.py:22-32 | no issue is reported if and only if the password has at least 8 characters, an upper-case letter, a digit and a special character |
| Registration.RuleMessagesDistinct | frontend/registration.py:25-31 | the four policy messages are pairwise different |
| Registration.FormErrorsExact | frontend/registration.py:51-61 | an error is in the list if and only if the form has that problem |
| Registration.ErrorListMembers | frontend/registration.py:51-61 | an error is in the list built from the four checks if and only if its check failed |
| Registration.FormErrorsOrdered | frontend/registration.py:51-61 | errors come in the order name, email, password rules in policy order, confirmation, each at most once |
| Registration.ErrorListOrdered | frontend/registration.py:51-61 | the list built from the four checks is in the handler's order whenever the rules are in policy order |
| Registration.FormErrorsEmptyIff | frontend/registration.py:51-63 | there is no error if and only if the stripped name is non-empty, the email is valid, the password meets the policy and the confirmation equals it |
| Registration.Decide | frontend/registration.py:51-70 | the form is rejected exactly when the error list is non-empty, and then with that list; it is refused as a duplicate exactly when the list is empty and the email is a key |
| Registration.UsersAfter | frontend/registration.py:66-72 | every existing entry is kept unchanged, and the only key that can appear is the submitted email |
| Registration.CreatedIff | frontend/registration.py:63-73 | an account is created if and only if the form has no error and the email is not yet a key |
| Registration.UsersAfterFrame | frontend/registration.py:63-72 | without a new account the map is unchanged; with one, exactly the new key is added, holding the stripped name and the password, and every other entry is kept |
| Registration.UsersAfterWellFormed | frontend/registration.py:67-72 | every entry the page adds has a valid email key, a non-empty stripped name and a policy-compliant password, so the map stays that way |
| Registration.Outcome.ErrorMessages | frontend/registration.py:63-69 | the messages shown with `st.error`: one per error in order, the duplicate-email message, or none |
| Registration.DuplicateMessageIsNew | frontend/registration.py:25-69 | no message of a form check is the duplicate-email message |
| Registration.DuplicateShownIff | frontend/registration.py:63-69 | the duplicate-email message is shown exactly when the form has no error and the email is already a key |
| Registration.Submit | frontend/registration.py:34-76 | the handler creates `registered_users` when it is missing, reports the decision above, leaves the map as described above, and does not touch `user` or `logged_in` |
| Login.ValidEmailAgrees | frontend/login.py:20-23 | the sign-in page's `valid_email` accepts the same strings as the registration page's |
| Login.ValidEmail | frontend/login.py:20-23 | `None` and `""` are rejected, and every accepted email is also accepted by the registration page |
| Login.WelcomeIff | frontend/login.py:57-81 | sign-in succeeds if and only if the email is valid, is a key of `registered_users`, and the stored password equals the typed one; the user stored is that email with its stored name |
| Login.Decide | frontend/login.py:57-81 | each failure exactly under its own condition: invalid email iff the check fails; no registered users iff the email is valid and the map is missing or empty; no account iff the map is non-empty and lacks the email; incorrect password iff the key exists with a different password; success implies the key exists with an equal password |
| Login.FailureMessagesDistinct | frontend/login.py:60-77 | the four failures are reported with four different messages |
| Login.RegisterThenSignIn | frontend/login.py:67-81 | an account the registration page has just created signs in with its password, and any other password is reported as incorrect |
| Login.Submit | frontend/login.py:57-84 | the handler reports that decision; on success it sets `user` and `logged_in`, and on failure it leaves the session as it was |
| Login.Logout | frontend/login.py:32-37 | log-out removes `logged_in` and `user` and keeps `registered_users` |
| Auth.EncodeCharDecodes | backend/auth.py:8 | the UTF-8 encoding of a character announces its length in its first byte and decodes back to the character |
| Auth.Utf8 | backend/auth.py:8 | `plain.encode()`: at least one byte per character; injective by `Utf8Injective` |
| Auth.Utf8Injective | backend/auth.py:8 | different passwords encode to different bytes |
| Auth.UnHexOfHexDigest | backend/auth.py:8 | `hexdigest()` loses nothing: reading it back gives the digest |
| Auth.HexDigitRoundTrip | backend/auth.py:8 | each hexadecimal digit written for a value below 16 reads back as that value |
| Auth.HexDigest | backend/auth.py:8 | `.hexdigest()`: two lower-case hexadecimal digits per byte |
| Auth.UnHex | backend/auth.py:8 | reading hexadecimal back gives half as many bytes; the inverse of `HexDigest` by `UnHexOfHexDigest` |
| Auth.HashPassword | backend/auth.py:7-8 | a stored hash is always 64 lower-case hexadecimal digits |
| Auth.VerifyPassword | backend/auth.py:10-11 | a password verifies only against a value of the shape `hash_password` produces |
| Auth.VerifyOwnHash | backend/auth.py:10-11 | a password is accepted against its own hash |
| Auth.VerifyRejectsMalformed | backend/auth.py:10-11 | no password is accepted against a value that is not 64 lower-case hexadecimal digits |
| Auth.WrongPasswordNeedsCollision | backend/auth.py:7-11 | a password is accepted against another password's hash only when the two encodings differ and collide under SHA-256 |
| Auth.FirstWithEmail | backend/auth.py:32 | the query gives `None` exactly when no user has the email, and otherwise the first user that has it |
| Auth.NextRowId | backend/models.py:8 | an inserted user's id is larger than every id in the table |
| Auth.UserTable.CreateUser | backend/auth.py:13-34 | the user is refused exactly when the email is taken, leaving the table unchanged; otherwise one row is appended, holding the hash and not the password, and `get_user_by_email` then finds it and its hash accepts the password |
| Auth.AppendKeepsTableValid | backend/auth.py:13-28 | appending a user with a new email under the next row id keeps ids increasing and emails unique |
| Auth.UserTable.GetUserByEmail | backend/auth.py:30-34 | `None` exactly when no row has the email, and otherwise a row of the table with that email |
| Auth.UserTable.GetUserByEmailIsUnique | backend/auth.py:30-34 | since emails are unique, the row found is the only one with that email |
| Auth.CreatedUserSignsIn | backend/auth.py:13-34 | a user appended under a new email, whatever its id, is the one found by that email, and its stored hash accepts its password |
| Database.Database.constructor | utils/database.py:18-74 | a freshly initialised database has three empty tables |
| Database.Database.CreateUser | utils/database.py:77-89 | a taken email is refused and nothing changes; otherwise exactly one row is appended, with an id above every id used so far and a null `resume_path`, and the other tables are unchanged |
| Database.AppendKeepsIds | utils/database.py:106-136 | appending a row under the table's next id keeps ids positive and increasing, with the following id next; `save_job_recommendation` (lines 161-191) appends the same way |
| Database.UserWithEmail | utils/database.py:96-103 | `None` exactly when no row has the email, otherwise a row with that email |
| Database.Database.GetUserByEmail | utils/database.py:92-103 | the same over the `users` table |
| Database.Database.GetUserByEmailIsUnique | utils/database.py:92-103 | because email is UNIQUE (line 29), the row found is the only row with that email |
| Database.SetResumePath | utils/database.py:216-222 | the row with the id gets the new `resume_path`, and every other row is unchanged |
| Database.SetResumePathMissingId | utils/database.py:211-224 | updating an id that no row has changes nothing |
| Database.SetResumePathKeepsKeys | utils/database.py:216-222 | the update changes no id and no email |
| Database.Database.UpdateUserResumePath | utils/database.py:211-224 | only that row's `resume_path` changes; the other tables and the counters are unchanged; ids and emails stay unique |
| Database.Database.SaveResumeAnalysis | utils/database.py:106-136 | one row with a fresh id is appended, everything else is unchanged, and it is then the user's latest analysis |
| Database.Latest | utils/database.py:139-158 | `None` exactly when the user has no row, and otherwise one of that user's rows |
| Database.LatestHasHighestId | utils/database.py:143-149 | the latest row has the highest id among the user's rows |
| Database.LatestAfterAppend | utils/database.py:106-158 | the row just saved becomes its owner's latest |
| Database.Database.GetLatestResumeAnalysis | utils/database.py:139-158 | `None` exactly when the user has no analysis, and otherwise one of that user's rows |
| Database.Database.SaveJobRecommendation | utils/database.py:161-191 | one row with a fresh id is appended, everything else is unchanged, and it heads the user's list ahead of the user's earlier rows |
| Database.NewestFirst | utils/database.py:198-206 | the result holds exactly the rows with the user's id |
| Database.NewestFirstDescending | utils/database.py:198-206 | those rows come in strictly descending id order |
| Database.NewestFirstAfterAppend | utils/database.py:161-209 | appending a row puts it first in its owner's list and changes no other user's list |
| Database.Database.GetJobRecommendationsForUser | utils/database.py:194-209 | exactly the user's recommendations, newest first |
| ResumeParser.Extension | backend/resume_parser.py:12 | the extension is empty or a `.` followed by neither `.` nor `/`, and it ends the path |
| ResumeParser.ExtensionOfName | backend/resume_parser.py:12 | a name with a non-dot character before its last dot has the extension `.` + the text after that dot |
| ResumeParser.ExtensionOfDotName | backend/resume_parser.py:12 | a name that is only dots before its last dot, such as `.bashrc`, has no extension |
| ResumeParser.ExtensionOfPlainName | backend/resume_parser.py:12 | a name without a dot has no extension |
| ResumeParser.KindOfName | backend/resume_parser.py:12 | the extractor is chosen by `.` + the lower-cased text after the name's last dot |
| ResumeParser.ExtensionOfLower | backend/resume_parser.py:12 | the extension of the lower-cased path is the lower-cased extension |
| ResumeParser.PageChunk | backend/resume_parser.py:22-23 | a page adds nothing exactly when its text is empty |
| ResumeParser.PdfText | backend/resume_parser.py:18-37 | the loop fails if and only if some page's extraction raises |
| ResumeParser.PdfTextEnds | backend/resume_parser.py:23 | the text built is empty or ends with the newline after its last kept page |
| ResumeParser.PdfTextWords | backend/resume_parser.py:20-23 | the words of the built text are the words of the pages in page order, none lost or merged across pages |
| ResumeParser.ChunkWords | backend/resume_parser.py:22-23 | one page's chunk adds exactly that page's words to the text built so far |
| ResumeParser.ExtractResumeText | backend/resume_parser.py:6-40 | the function returns the specified text, and that text is always in normal form |
| ResumeParser.ExtensionCaseInsensitive | backend/resume_parser.py:12-26 | paths that lower-case alike, `.PDF` and `.pdf` among them, give the same result |
| ResumeParser.UnsupportedIsEmpty | backend/resume_parser.py:30-32 | an extension other than `.pdf`, `.doc` or `.docx` gives `""` |
| ResumeParser.PdfFailureIsEmpty | backend/resume_parser.py:18-37 | a failure to open or read the PDF, or on any page, gives `""` |
| ResumeParser.DocxFailureIsEmpty | backend/resume_parser.py:26-37 | a failure of the DOC/DOCX extractor gives `""` |
| ResumeParser.PdfResult | backend/resume_parser.py:20-39 | a PDF result is in normal form, is a fixed point of normalisation and holds exactly the pages' words in page order |
| ResumeParser.DocxResult | backend/resume_parser.py:28-39 | a DOC/DOCX result is in normal form, is a fixed point and keeps the document's words |
| Dashboard.MaskLocal | frontend/dashboard.py:115 | an empty local part raises; otherwise the mask is the first and last characters when the local part is longer than two, and only the first otherwise |
| Dashboard.MaskEmail | frontend/dashboard.py:112-118 | an email without `@` is shown as it is; one starting with `@` raises; otherwise it is the mask of the part before the first `@`, then `@` and everything after it |
| Dashboard.MaskValidEmail | frontend/dashboard.py:113-116 | an email the registration page accepts is always masked, and the result has exactly one `@`, followed by the whole domain, after at most two characters |

## Left out

- Streamlit rendering, CSS, page configuration, `st.stop()`, and `app.py`, whose imported `show_*` functions the frontend scripts do not define. None of these affect the state that is modelled.
- The short-circuit at frontend/login.py:40-42. In a signed-in session it draws the dashboard and calls `st.stop()`, so the sign-in form and its handler never run there, and the log-out button exists only there. `Login.Submit` and `Login.Logout` carry no such precondition, so the model also allows sign-in while signed in and log-out while signed out.
- `load_users` and `users.json` behind the dashboard's user list, and the loop that renders it. Only the masking expression is modelled.
- SQLite connections, creating the `data` directory, SQLAlchemy sessions and `db.refresh`, `backend/database.py` and `backend/create_tables.py`. `init_db` is modelled only on a fresh file: the constructor.
- Exceptions as control flow. The IntegrityError of a duplicate email is a `None` or `false` result, and the IndexError of an empty local part is a `None` mask.
- SHA-256 itself. It is the uninterpreted parameter `sha`, with no claim of injectivity.
- PyPDF2, docx2txt and opening the file. Their results are the `Source` parameter. The `print` of the error is output only.
- `datetime.utcnow()`. It is the parameter `now`.
- Floating point. `match_percentage` is the opaque type `Float`, stored and returned unchanged.
- Foreign keys. SQLite does not enforce them unless `PRAGMA foreign_keys` is on, which the code never does, so `user_id` is an unchecked integer.
- SQLite rowid exhaustion at 2^63-1 and every other storage failure.
- In-place aliasing of the `registered_users` dict. The handler's local `users` refers to the dict in the session; the model reassigns the session's field, which gives the same final state.
- Strings Python allows and Dafny does not. Lone surrogate code points cannot occur in a Dafny `string`, so `Auth.Utf8` never meets the UnicodeEncodeError they would raise.
- ResumeParser.Extension: only POSIX paths (`posixpath.splitext`), because the application runs on Linux. Windows `\` separators are not considered.
- PyText.IsWordChar: the regex class `\w` is modelled on its ASCII members only. Python's Unicode-aware class also accepts letters and digits of other scripts, so the model's email check is stricter than the code on non-ASCII input.
- Registration.Satisfies: `\d` in the digit rule (frontend/registration.py:28) is modelled as `0`-`9` only (`PyText.IsAsciiDigit`). Python's `\d` also matches other Unicode decimal digits, such as the Arabic-Indic digit three, so for a password whose only digit is such a character the model reports "At least one number." where the code reports nothing.
- PyText.Lower: lower-cases ASCII letters only. This affects only non-ASCII extensions, which are unsupported either way.
