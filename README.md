# email-sender: identity derivation and template fan-out, in Dafny

This project models the two pieces of real logic in the email-sender
application, a small Rust desktop tool that mails each user on a list a
message rendered from a template:

- **Identity derivation** (`src/lib.rs`). `username(email)` builds a
  login name: the first character of the first `.`-token of the lower-cased
  local part, followed by the remaining tokens after four steps. Tokens of
  length at most one are dropped. Tokens containing `contractor` are dropped.
  Hyphens are stripped. A token equal to `ki` becomes `k`. `fullname(email)`
  removes every `contractor` from the lower-cased local part, capitalises
  each `.`-token with `uppercase_first_letter` and joins the tokens with
  single spaces.
- **Rendering and cc fan-out** (`src/main.rs`, `create_emails`). For every
  loaded `(User, username, fullname)` row, the template's subject and body
  get six literal replace-all substitutions. The order is fixed: `{username}`,
  `{fullname}`, `{password}`, `{var1}`, `{var2}`, `{var3}`. A missing variable
  becomes empty text. When "hide password from cc" is set and the template has
  a cc, each user yields two emails. The first goes to the user. The second
  goes to the cc, with `[hidden]` in the body instead of the password. Both
  have an empty cc. Otherwise each user yields one email, to the user, with
  the template's cc.

Files:

- `text.dfy`, module `Text`: the Rust string operations the core is built
  from, as recursive functions on `seq<char>`. They are `split` on one
  character, `replace`, `contains`, `join`, `collect::<String>()`, `filter`,
  `map`, and ASCII `to_lowercase`/`to_uppercase`. Lemmas characterise them
  independently of their definitions. Examples: split and join are inverse;
  joining split pieces with `r` equals replacing the separator with `r`; the
  first piece is the longest separator-free prefix; lower-casing commutes with
  splitting; filtering works element by element. `replace` is characterised
  for every text whenever the pattern is border-free, meaning no proper
  suffix of the pattern is also a prefix of it, so occurrences cannot
  overlap. Then the text is the pattern-free pieces between its occurrences
  joined by the pattern, and the result is those pieces joined by the
  replacement (`ReplaceAllByPieces`). `contractor` and all six placeholders
  are border-free (`ContractorBorderFree`, `KeyBorderFree`).
- `identity.dfy`, module `Identity`: `src/lib.rs`.
- `emails.dfy`, module `Emails`: the `Email`, `EmailTemplate` and `User`
  records, the rendering chain, and `create_emails`. `create_emails` is a
  method with a loop proved against the specification function `AllEmails`.
  The source reads the application through a shared reference (`&self`); the
  model passes it as an immutable value, so the template and the user list
  are unchanged by construction.

Two points of the model may be unexpected. It follows the code in both:

- `username` has a single failure, not separate "malformed address" and
  "empty local part" errors. `split("@").next()` always yields something,
  and an address without `@` is its own local part. So `username` fails
  exactly when the first `.`-token is empty. That happens when the address
  is empty or starts with `@` or `.`. `fullname` never fails.
- The username of `a.b.contractor` is `a`, not `ab`. The code filters with
  `len() > 1` (line 7), which drops the one-letter token `b`.
  `DroppedTokenAddsNothing` states the general rule.

Two further notes on the code:

- `src/lib.rs` does not compile as written. Among the places that fail,
  these bear on the model:
  - `Error` is named (line 2) but never imported.
  - `?` is applied to an `Option` inside functions that return `Result` or `String` (lines 3, 5, 19).
  - The lower-cased local part is a temporary `String` dropped at the end of line 3, while the `split` iterator borrowing it is still used (lines 5, 13).
  - `first_name[0]` indexes a `str` (line 13).
  - Line 10 returns `s.as_str()`, a borrow of the closure's own `String` parameter.
  - `collect::<&[&str]>()` is not a valid collection target (line 24).

  The model follows the evident intent: the local part lower-cased and then
  split, the first character of the first token, the mapped tokens
  collected, and a vector of segments joined.
- The full name of `a.b.contractor` ends in a space (`"A B "`). Removing
  `contractor` from the whole string leaves an empty last token.
  `FullnameSegments` states this in general: every `.`-token, empty ones
  included, gives one segment.

## Model

| member | source | states |
|---|---|---|
| Text.Lower | src/lib.rs:3 | lower-casing keeps the length and maps every character through the ASCII lower-case mapping |
| Text.LowerChar | src/lib.rs:20 | the result is never an upper-case letter and differs from the input only when an upper-case letter became a lower-case one |
| Text.UpperChar | src/lib.rs:33 | the result is never a lower-case letter, differs only when a lower-case letter became upper-case, and lower-cases to the same character |
| Text.LowerIdempotent | src/lib.rs:3 | lower-casing twice is lower-casing once |
| Text.ContainsAt | src/lib.rs:8 | a pattern found at any position makes `contains` true |
| Text.ContainsWitness | src/lib.rs:8 | when `contains` is true, the pattern occurs at some position |
| Text.ContainsNeedsRoom | src/lib.rs:8 | a pattern longer than the text is never contained |
| Text.ContainsSameLength | src/lib.rs:8 | a pattern of the text's own length is contained only if it is the whole text |
| Text.ContainsChar | src/lib.rs:9 | a one-character pattern is contained exactly when the character occurs |
| Text.Contains | src/lib.rs:8 | `pat` occurs somewhere in `s`; `ContainsAt` and `ContainsWitness` show this is the same as an occurrence at some position |
| Text.ContainsFirstChar | src/main.rs:103-108 | a pattern cannot occur in a text that lacks the pattern's first character |
| Text.ReplaceAll | src/main.rs:103-108 | a text without the pattern is returned unchanged, and replacing a pattern by itself changes nothing |
| Text.ReplaceWhole | src/main.rs:105 | a text that is exactly the pattern becomes exactly the replacement |
| Text.ReplaceSkipsFree | src/main.rs:103-108 | text without the pattern's first character is copied unchanged, and replacing goes on after it |
| Text.ReplaceAtStart | src/main.rs:103-108 | a text that starts with the pattern starts with the replacement, and replacing goes on after the pattern |
| Text.ReplaceJoin | src/main.rs:103-108 | every occurrence is replaced: pieces joined by the pattern, none holding its first character, come out joined by the replacement |
| Text.ReplaceSkipsOther | src/main.rs:103-108 | a separator that neither extends nor is extended by the pattern, and holds its first character at most at the start, is copied unchanged |
| Text.BorderFreeByHead | src/main.rs:103-108 | a pattern whose first character does not recur in it is border-free |
| Text.NoMatchBeforeOccurrence | src/lib.rs:21 | a border-free pattern cannot start inside a pattern-free text and run on into a following occurrence |
| Text.ReplaceSkipsNoOcc | src/lib.rs:21 | for a border-free pattern, a pattern-free piece before an occurrence (or at the end) is copied unchanged, and replacing goes on after it |
| Text.ReplaceJoinGeneral | src/lib.rs:21 | for a border-free pattern, every occurrence is replaced: pattern-free pieces joined by the pattern come out joined by the replacement |
| Text.JoinOfPieces | src/lib.rs:21 | every text is some pattern-free pieces joined by the pattern |
| Text.ReplaceAllByPieces | src/lib.rs:21 | for a border-free pattern and any text, the result is the text's pattern-free pieces joined by the replacement |
| Text.ReplaceOtherJoin | src/main.rs:103-108 | replacing some other pattern leaves pieces joined by a separator unchanged, when neither the pieces nor the separator's tail can start that pattern |
| Text.ReplaceCharRemovesIt | src/lib.rs:9 | after replacing a character by text without it, the character no longer occurs |
| Text.ReplaceKeepsLower | src/lib.rs:20-21 | replacing within lower-case text, using a lower-case replacement, gives lower-case text |
| Text.Concat | src/lib.rs:11 | collecting the pieces is joining them with an empty separator |
| Text.Join | src/lib.rs:25 | the pieces with the separator between each neighbouring pair; `SplitJoin` and `JoinSplitIsReplace` relate it to splitting and replacing |
| Text.JoinAvoids | src/lib.rs:25 | a character in neither the pieces nor the separator is not in the joined text |
| Text.ConcatAppend | src/lib.rs:11 | collecting a concatenation of piece lists is concatenating the collected strings |
| Text.Split | src/lib.rs:3 | there is one more piece than separators, no piece holds the separator, and joining the pieces with the separator gives back the text |
| Text.SplitFirstEmpty | src/lib.rs:5 | the first piece is empty exactly when the text is empty or starts with the separator |
| Text.SplitFirstIsPrefix | src/lib.rs:3 | the first piece is a prefix of the text, and either all of it or followed by the separator |
| Text.SplitKeepsAbsent | src/lib.rs:22 | a character absent from the text is absent from every piece |
| Text.SplitNoSeparator | src/lib.rs:18-19 | a text without the separator splits into itself alone |
| Text.SplitAtFirst | src/lib.rs:3 | splitting `l + sep + rest` with a separator-free `l` gives `l` followed by the pieces of `rest` |
| Text.SplitJoin | src/lib.rs:22-25 | splitting undoes joining when no piece holds the separator |
| Text.JoinSplitIsReplace | src/lib.rs:22-25 | joining the pieces of a one-character split with `r` equals replacing that character by `r` |
| Text.LowerJoin | src/lib.rs:20-25 | lower-casing a joined text is joining the lower-cased pieces with the lower-cased separator |
| Text.LowerSplit | src/lib.rs:3 | on a separator that is not a letter, splitting the lower-cased text gives the lower-cased pieces |
| Text.Filter | src/lib.rs:7-8 | filtering keeps exactly the elements that pass, and never lengthens the sequence |
| Text.FilterAppend | src/lib.rs:7-8 | filtering a concatenation is concatenating the filtered parts, so order and repeats are kept |
| Text.FilterOne | src/lib.rs:7-8 | one element is kept exactly when it passes |
| Text.Map | src/lib.rs:9-10 | mapping keeps the length and applies the function at every position |
| Identity.LocalPart | src/lib.rs:3 | the local part is the longest `@`-free prefix of the address |
| Identity.NameTokens | src/lib.rs:3-5 | splitting the local part always yields at least one token, so taking the first never fails |
| Identity.Username | src/lib.rs:2-14 | fails exactly when the address is empty or starts with `@` or `.`; otherwise starts with the address's first character, lower-cased |
| Identity.FirstTokenEmpty | src/lib.rs:3-5 | the first token is empty exactly when the address is empty or starts with `@` or `.`; otherwise it begins with the lower-cased first character of the address |
| Identity.Surname | src/lib.rs:6-11 | the iterator chain over the tokens after the first: two filters, two maps, collected into one string; `SurnameIsContributions` gives its meaning |
| Identity.LongerThanOne | src/lib.rs:7 | the first filter's test `s.len() > 1`: the token has more than one character |
| Identity.FreeOfContractor | src/lib.rs:8 | the second filter's test `!s.contains("contractor")`: the token does not contain `contractor` |
| Identity.StripHyphens | src/lib.rs:9 | no hyphen is left, and a hyphen-free token is kept as it is |
| Identity.ShortenKi | src/lib.rs:10 | only `ki` changes, and it becomes `k` |
| Identity.SurnameIsContributions | src/lib.rs:6-11 | the filter/filter/map/map/collect chain equals the token-by-token concatenation of each token's own contribution |
| Identity.DroppedTokenAddsNothing | src/lib.rs:7-8 | a non-first token of length at most one, or containing `contractor`, adds nothing to the username wherever it stands |
| Identity.KeptTokenAddsItself | src/lib.rs:9-11 | any other token adds itself without hyphens, or `k` when that leaves `ki`, at its own place in token order with no separator |
| Identity.PlainTokensConcatenate | src/lib.rs:6-11 | long, contractor-free, hyphen-free tokens other than `ki` are concatenated unchanged |
| Identity.UsernameOfPlainTokens | src/lib.rs:13 | with such tokens, the username is the lower-cased first character followed by the tokens after the first, concatenated |
| Identity.SurnameHasNoHyphen | src/lib.rs:9 | the surname fragment never holds a hyphen |
| Identity.UsernameTailHasNoHyphen | src/lib.rs:9-13 | everything after the username's first character is hyphen-free |
| Identity.UppercaseFirstLetter | src/lib.rs:29-35 | same length; the characters after the first are unchanged; the first is not a lower-case letter; lower-casing gives the same text as lower-casing the input |
| Identity.UppercaseFirstLetterIdempotent | src/lib.rs:29-35 | capitalising twice is capitalising once |
| Identity.StrippedLocalPart | src/lib.rs:17-21 | the lower-cased, contractor-stripped local part is lower-case; `StrippedLocalPartDecomposes` and `TrailingContractorRemoved` say which text it is |
| Identity.StrippedLocalPartRemovesContractor | src/lib.rs:20-21 | every `contractor` is removed, even inside a token: a lower-cased local part made of pieces that do not contain `contractor`, joined by `contractor`, is stripped to the pieces run together, so `alice.contractor` becomes `alice.` and `xcontractory` becomes `xy` |
| Identity.ContractorBorderFree | src/lib.rs:20 | no proper suffix of `contractor` is a prefix of it, so its occurrences cannot overlap |
| Identity.StrippedLocalPartDecomposes | src/lib.rs:17-21 | for every address, the lower-cased local part is some `contractor`-free pieces joined by `contractor`, and the stripped local part is exactly those pieces run together |
| Identity.TrailingContractorRemoved | src/lib.rs:17-21 | a local part that lower-cases to a contractor-free text followed by `contractor` is stripped to that text, so `alice.contractor@corp` gives `alice.` |
| Identity.Fullname | src/lib.rs:16-26 | up to case, the full name is the contractor-stripped local part with every `.` turned into a space |
| Identity.CapitalisedJoinLower | src/lib.rs:22-25 | up to case, capitalising the `.`-tokens of a lower-case text and joining them with spaces is replacing each `.` by a space |
| Identity.FullnameSegments | src/lib.rs:21-25 | for a space-free stripped local part, splitting the full name on spaces gives one capitalised segment per `.`-token, empty tokens included, so there are as many spaces as dots |
| Identity.LocalPartOnly | src/lib.rs:17-19 | appending `@` and any domain to an `@`-free local part changes neither the username nor the full name |
| Identity.CaseInsensitive | src/lib.rs:3 | lower-casing the address first changes neither the username nor the full name |
| Emails.Email | src/main.rs:34-40 | one outbound message with the fields `to`, `cc`, `attachment`, `subject` and `body`, all text |
| Emails.EmailTemplate | src/main.rs:43-47 | the template with the fields `cc`, `subject` and `body`, all text |
| Emails.User | src/main.rs:50-56 | one user-list row with the fields `email` and `password`, and the optional texts `var1`, `var2` and `var3` |
| Emails.EmailSenderApp | src/main.rs:23-31 | the four fields `create_emails` reads: `hide_password_from_cc`, the attachment (as its text), the optional loaded `(User, username, fullname)` rows, and the template `email` |
| Emails.Render | src/main.rs:100-118 | a subject or body containing none of the six placeholders is rendered verbatim; `RenderTemplate` says what an ordinary template with placeholders becomes |
| Emails.VarText | src/main.rs:106-108 | a missing variable is empty text and a present one is its own text |
| Emails.BraceFreeHasNoPlaceholder | src/main.rs:103-108 | text without `{` holds none of the six placeholders |
| Emails.RenderUsername | src/main.rs:103 | every `{username}` in a text with no other brace becomes the (brace-free) username |
| Emails.RenderFullname | src/main.rs:104 | every `{fullname}` in a text with no other brace becomes the (brace-free) full name |
| Emails.RenderPassword | src/main.rs:105 | every `{password}` in a text with no other brace becomes the (brace-free) password given |
| Emails.RenderVar1 | src/main.rs:106 | every `{var1}` in a text with no other brace becomes the first variable, or nothing when it is missing |
| Emails.RenderVar2 | src/main.rs:107 | every `{var2}` in a text with no other brace becomes the second variable, or nothing when it is missing |
| Emails.RenderVar3 | src/main.rs:108 | every `{var3}` in a text with no other brace becomes the third variable, or nothing when it is missing |
| Emails.Key | src/main.rs:103-108 | each placeholder is `{` followed by text without `{` |
| Emails.KeyBorderFree | src/main.rs:103-108 | no placeholder has a proper suffix that is also its prefix |
| Emails.KeysApart | src/main.rs:103-108 | no placeholder is a prefix of another, and distinct placeholders are replaced at distinct steps |
| Emails.AfterEnds | src/main.rs:100-118 | before the chain a template is its own text, and after all six steps every placeholder holds its value |
| Emails.PartStep | src/main.rs:103-108 | one step of the chain turns its own placeholder into its value and copies literal text, filled placeholders and later placeholders unchanged |
| Emails.TemplateStep | src/main.rs:103-108 | one step of the chain on a whole template fills exactly that step's placeholder, wherever it occurs |
| Emails.RenderTemplate | src/main.rs:100-118 | an ordinary template, brace-free literal text mixed with any of the six placeholders, rendered with brace-free values, is the literal text with every placeholder replaced by its value, e.g. `Hi {fullname}, your password is {password}` |
| Emails.MissingVariablesAreEmpty | src/main.rs:106-108 | a missing `var1`, `var2` or `var3` turns its placeholder into empty text |
| Emails.SubstitutionIsSequential | src/main.rs:103-108 | the replacements apply in sequence: with username `{password}`, the text `{username}` renders as the password |
| Emails.SplitsCc | src/main.rs:120 | the cc gets its own copy exactly when hiding the password is on and the template's cc is not empty |
| Emails.UserEmails | src/main.rs:120-153 | one user row yields two emails under the cc split and one otherwise |
| Emails.CreateEmails | src/main.rs:96-156 | the loop's output is `AllEmails` over the loaded rows: twice as many emails as rows under the cc split, as many as rows otherwise |
| Emails.AllEmails | src/main.rs:97-155 | the emails of all rows, each row's emails together, in row order |
| Emails.AllEmailsLength | src/main.rs:97-155 | the output has two emails per user under the cc split and one per user otherwise |
| Emails.AllEmailsGrouped | src/main.rs:97-155 | the emails are grouped by user in input order: email `j` of user `i` sits at `2 * i + j` under the split and at `i` otherwise |
| Emails.VisibleCc | src/main.rs:145-152 | without the split: one email, to the user, carrying the template's cc, with subject and body rendered with the real password |
| Emails.HiddenCc | src/main.rs:120-144 | with the split: the primary to the user, then the copy to the template's cc, both with empty cc and the same subject rendered with the real password; the primary body uses the password, the copy's body uses `[hidden]` |
| Emails.CcCopySubjectShowsPassword | src/main.rs:135-142 | only the body is hidden: a subject that is just `{password}` shows the real password in the cc copy |
| Emails.CcCopyIgnoresPassword | src/main.rs:121-129 | the cc copy's body is the same whatever the user's password |
| Emails.AllEmailsCarryAttachment | src/main.rs:99 | every emitted email carries the same attachment text |
| Emails.VerbatimTemplate | src/main.rs:100-118 | a template whose subject and body hold no placeholder is sent verbatim in every email |

## Left out

- The egui/eframe window, menus, tables and checkbox (`src/main.rs:11-20`, `233-368`), and `ui_counter` in `src/lib.rs`: these are user-interface code.
- File and format I/O is not modelled: file dialogs, YAML template open/save/save-as/export, and reading the CSV user list (`user_list_open`, `attachment_open`). The users and the template are passed in as values. This leaves out how the rows' usernames and full names are derived while loading, which aborts the whole load at the first failing address.
- `attachment_as_string`: the lossy path-to-text conversion. The app's attachment is modelled as the resulting text.
- `send_emails` and `email_backend/email_backend.py`: JSON serialisation, launching PowerShell, and driving Outlook through COM automation. These are process and foreign calls.
- `es::AppError` and `es::error_to_string` are not part of this model.
- `EmailSenderApp` fields that `create_emails` does not read are not modelled: the template path, the user-list path and the error text.
- Emails.CreateEmails: the source returns a `BoxResult` that is never an error, so the model returns the sequence itself. The source panics on `users.unwrap()` when no user list has been loaded, which becomes the precondition that the users are present.
- Full Unicode case mapping: `to_lowercase` and `to_uppercase` use Unicode tables and may change a string's length. The model maps ASCII letters only. Because of that, Rust's byte-based `len() > 1` is modelled as a character count, which agrees for ASCII.
- Text.ReplaceAll: its lemmas characterise every text only for border-free patterns (`ReplaceAllByPieces`). A pattern such as `aa`, where occurrences can overlap, is covered by the definition alone; no pattern in the source is of that kind.
- Emails.Render: the whole chain is characterised (`RenderTemplate`) when the template's literal text and the substituted values hold no `{`. Otherwise an earlier value or stray brace can complete or create a later placeholder (`SubstitutionIsSequential` shows one case), and each step is then covered only one at a time, by `ReplaceAllByPieces` with `KeyBorderFree`.
- Text.ReplaceAll: requires a non-empty pattern. Rust's `replace` with an empty pattern, which inserts between characters, is not modelled; every pattern in the source is a non-empty literal.
