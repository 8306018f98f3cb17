# LockBox storage engine in Dafny

LockBox is a desktop password manager. A master password is turned into an
AES key. Each credential (website, username, password) is written as one
line of a `.lbx` file, encrypted on its own with AES-GCM. This project
models the storage engine behind the window and proves properties about
that model:

- **Record codec** (`account.dfy`, module `Accounts`): an account is the line
  `website,username,password`. Decoding splits on every comma, keeps empty
  fields, and accepts exactly three fields.
- **Crypto** (`crypto.dfy`, module `Crypto`) covers three things:
  - Key derivation: SHA-256 of the password followed by the fixed salt
    `LockBox_2025`, then 1000 more digests.
  - Framing: the line is the Base64 of the 12-byte nonce followed by the
    AES-GCM output.
  - The strength rating.
- **Store** (`password_manager.dfy`, module `Store`): the `PasswordManager`
  class and its account list. It covers add, the stable case-insensitive
  sort, search, password generation, and the save and load loops.
- **Window** (`lockbox.dfy`, module `LockBoxApp`): the `LockBox` window logic
  that updates storage state. This covers:
  - the recent-files preference;
  - the `.lbx` extension;
  - updating and deleting the selected account;
  - re-keying the store when the master password changes.
- **Support** (`text.dfy`, module `Text`; `results.dfy`, module `Results`):
  Java's `String` operations as the engine uses them (`split` with limit -1
  and with limit 0, `trim`, `toLowerCase`, `contains`), and the
  `Option`/`Result` types.

Some things the code depends on are outside the model:
- **Cryptographic primitives.** UTF-8, SHA-256, AES-GCM and Base64 are
  function values in the `Crypto.Primitives` datatype. The laws the proofs
  rely on are stated as hypotheses: `Sound` says each decoder undoes its
  encoder, and `Authenticating` says a ciphertext does not open under a
  different key.
- **`SecureRandom`.** Modelled as a method that may return any value in
  range, so a method's contract holds for every random draw.
- **Files and preferences.** A file is the sequence of its lines. The
  preference store is a string field. `File.exists` is a parameter of type
  `string -> bool`.

Four behaviours of the code a reader may not expect; the model follows the
code:
- **`loadFromFile` is not all-or-nothing.** It clears the list before it
  reads anything. When a line fails, the accounts decoded so far stay in the
  list, unsorted. `Store.PasswordManager.LoadFromFile` states exactly this.
- **Update and delete can index past the account list.** They take their
  index from the list widget, which can show more rows than the manager
  holds. `openDatabase` replaces the manager before loading
  (LockBox.java:1083-1086). When the load fails (LockBox.java:1095-1099),
  the old rows stay on screen, but the new manager holds few or no
  accounts. A row index past the end then makes `set` or `remove` throw
  `IndexOutOfBoundsException`, and the accounts stay as they were. The
  outcomes `SelectionOutOfRange` and `DeleteOutOfRange` model this. The
  filtered-index problem is described under Findings.
- **`changeMasterPassword` never checks the current password.** It builds a
  `CryptoUtils` from the current password, which cannot fail, and then
  re-keys unconditionally.
- **`validatePassword` ignores its argument.** It round-trips a test string
  under the object's own key.

## Model

| member | source | states |
|---|---|---|
| Accounts.ToDataString | Account.java:29-31 | the line is website, comma, username, comma, password: its length and each field's slice and delimiter position |
| Accounts.FromString | Account.java:33-39 | succeeds exactly when the line holds two commas; what it accepts has comma-free fields and re-encodes to the very same line; otherwise InvalidAccountDataFormat |
| Accounts.DataStringIsJoin | Account.java:29-31 | the line form is the three fields joined by a comma |
| Accounts.RoundTrip | Account.java:29-39 | an account with no comma in any field decodes back to itself |
| Accounts.DelimiterInFieldFails | Account.java:29-39 | a comma inside any field makes the encoded line fail to decode rather than decode to a different account |
| Accounts.TrailingEmptyFieldKept | Account.java:33-38 | because of the -1 limit, `w,u,` decodes with an empty password |
| Accounts.FromStringExamples | Account.java:33-39 | concrete lines: `a,b,` is accepted; `a,b`, `a,b,c,d` and the empty line are refused |
| Text.Split | Account.java:34 | split with limit -1 yields one field more than there are delimiters, none holding the delimiter |
| Text.JoinSplit | Account.java:34 | joining the split fields gives back the text |
| Text.SplitJoin | Account.java:30-34 | splitting the join of delimiter-free fields gives back the fields |
| Text.DropTrailingEmpty | LockBox.java:1533 | the limit-0 split result is a prefix of the fields; everything dropped is empty, and what is kept ends in a non-empty field or is empty |
| Text.Trim | LockBox.java:1453-1454 | trim gives the slice `s[a..b]` of the input such that every character outside it is at or below a space, and it neither starts nor ends with such a character; the result is empty exactly when every character is at or below a space |
| Text.ToLower | PasswordManager.java:106 | lower-casing keeps the length and lowers each character |
| Text.Contains | PasswordManager.java:109-110 | true exactly when the term occurs at some offset |
| Crypto.DeriveKeyFromPassword | CryptoUtils.java:20-41 | the key is SHA-256 applied 1001 times to the UTF-8 of password followed by the salt; the same password always gives the same key |
| Crypto.IterateInjective | CryptoUtils.java:29-35 | re-digesting with an injective digest keeps distinct inputs distinct |
| Crypto.SameKeySamePassword | CryptoUtils.java:20-37 | with an injective encoding and digest, two passwords with the same key are the same password; injectivity stands in for SHA-256's collision resistance, under which this holds only with overwhelming probability |
| Crypto.Frame | CryptoUtils.java:59-62 | the combined array is the nonce followed by the cipher output |
| Crypto.Unframe | CryptoUtils.java:71-75 | fails exactly when the decoded blob is shorter than 12 bytes (negative array size); otherwise gives a 12-byte nonce and a body that re-frame to the blob |
| Crypto.UnframeFrame | CryptoUtils.java:60-75 | splitting a framed blob returns the nonce and body it was framed from |
| Crypto.Encrypt | CryptoUtils.java:43-65 | the line is the Base64 of the nonce followed by the sealed UTF-8 of the text; with sound primitives it decrypts back to the text |
| Crypto.Decrypt | CryptoUtils.java:67-87 | fails as malformed exactly when the line is not Base64, and with a negative array size exactly when the decoded blob is under 12 bytes; otherwise the blob is split into its 12-byte nonce and its body: when that body opens under the key the result is Success with its UTF-8 decoding, and when it does not, AuthenticationFailed |
| Crypto.FrameInjective | CryptoUtils.java:60-75 | a framed blob determines its 12-byte nonce and its body |
| Crypto.DecryptEncrypt | CryptoUtils.java:43-87 | decrypting what was encrypted under the same key gives the plain text back, for any nonce |
| Crypto.DecryptWrongKey | CryptoUtils.java:43-87 | decrypting under a different key fails authentication |
| Crypto.ShortBlobRefused | CryptoUtils.java:69-73 | a decoded blob shorter than the nonce is refused before decryption |
| Crypto.ValidatePassword | CryptoUtils.java:98-108 | with sound primitives the test string round-trips, so the result is true |
| Crypto.ValidatePasswordAcceptsAnything | CryptoUtils.java:98-108 | validatePassword returns true for every argument, because the argument is never used |
| Crypto.ClassOf | CryptoUtils.java:120-125 | each character sets exactly one flag: upper, else lower, else digit, else special |
| Crypto.Score | CryptoUtils.java:127-134 | the score is at most 6, at most 4 below 12 characters, and at most 5 below 16 |
| Crypto.GetPasswordStrength | CryptoUtils.java:110-149 | the flag loop returns the label of the rating: "Weak" below 8 characters, otherwise the label of the score's tier (0-2 "Weak", 3-4 "Medium", 5 "Strong", otherwise "Very Strong") |
| Crypto.LabelInjective | CryptoUtils.java:136-148 | the four labels are distinct, so the returned text determines the rating |
| Crypto.HasClassSnoc | CryptoUtils.java:120-125 | appending one character adds exactly its own class to the classes present |
| Crypto.ShortIsWeak | CryptoUtils.java:111-113 | every password under 8 characters is Weak |
| Crypto.LengthCapsRating | CryptoUtils.java:127-148 | 8-11 characters never rate above Medium, and 12-15 never Very Strong |
| Crypto.AllClassesLongIsVeryStrong | CryptoUtils.java:127-147 | 16 or more characters covering all four classes rate Very Strong |
| Crypto.AllClassesRating | CryptoUtils.java:127-148 | a password covering all four classes rates by length alone: Medium, Strong from 12, Very Strong from 16 |
| Store.LexLeTotal | PasswordManager.java:101 | any two keys are ordered one way or the other |
| Store.LexLeTransitive | PasswordManager.java:101 | the key order is transitive |
| Store.LexLeReflexive | PasswordManager.java:101 | every key is ordered with itself |
| Store.Insert | PasswordManager.java:101 | inserting adds exactly one occurrence of the account |
| Store.SortByWebsite | PasswordManager.java:100-102 | sorting keeps the same accounts, each as often as before |
| Store.SortIsSorted | PasswordManager.java:100-102 | the sorted list is non-decreasing by case-insensitive website |
| Store.SortIsStable | PasswordManager.java:100-102 | accounts that share a website key keep their relative order |
| Store.SortedIsFixed | PasswordManager.java:100-102 | a list already in website order is left as it is |
| Store.WithKeyAppend | PasswordManager.java:100-102 | selecting the accounts with one key commutes with concatenation |
| Store.Matching | PasswordManager.java:104-116 | an account is in the result exactly when it is in the list and its lower-cased website or username contains the lower-cased term; the result is no longer than the list |
| Store.MatchingAppend | PasswordManager.java:104-116 | matches come out in list order: filtering commutes with concatenation |
| Store.EmptyTermMatchesAll | PasswordManager.java:104-116 | the empty term returns the whole list |
| Store.RandomInt | PasswordManager.java:59 | a draw of nextInt(bound) lies in [0, bound) |
| Store.RandomBytes | CryptoUtils.java:45-47 | a nonce of the requested length |
| Store.Shuffle | PasswordManager.java:57-63 | the Fisher-Yates loop only rearranges: the multiset of characters is unchanged |
| Store.CharsetClasses | PasswordManager.java:36-39 | the four character sets fall in the upper, lower, digit and special classes |
| Store.ShuffledDrawKeepsGuarantees | PasswordManager.java:45-65 | any rearrangement of a draw that starts with one character from each set uses only the four sets, holds each of them, and rates by length alone |
| Store.DecodeLine | PasswordManager.java:85-89 | a line decodes exactly when it decrypts to text with exactly two commas; the account then has comma-free fields and its line form is that text |
| Store.EncryptLines | PasswordManager.java:68-76 | one line per account |
| Store.DecodedPrefix | PasswordManager.java:79-91 | every account decoded comes from its own line in order; if a line is left over, it is the one that failed |
| Store.AllDecodeIff | PasswordManager.java:79-91 | every line decodes exactly when the decoded prefix covers the whole file |
| Store.LoadAfterSave | PasswordManager.java:68-91 | with sound primitives, the lines saved for comma-free accounts all decode, each to its own account in order, for any nonces |
| Store.LoadWithWrongKey | PasswordManager.java:79-91 | a non-empty file saved under one key, loaded under another, fails on its first line and decodes nothing |
| Store.PasswordManager.constructor | PasswordManager.java:17-21 | a new manager has an empty list and the key derived from its master password |
| Store.PasswordManager.AddAccount | PasswordManager.java:23-25 | the account is appended at the end, without a duplicate check |
| Store.PasswordManager.SortAccountsByWebsite | PasswordManager.java:100-102 | the list becomes the stable website sort of the old list: same multiset, sorted, and order preserved within each key |
| Store.PasswordManager.SearchAccounts | PasswordManager.java:104-116 | returns the matching accounts in list order, exactly those matching, and all of them for the empty term; the list is unchanged |
| Store.PasswordManager.GeneratePassword | PasswordManager.java:31-66 | for every random draw, the length is the request raised to at least 8; every character comes from the four sets and each set is present; the rating is Medium, Strong from 12, Very Strong from 16 |
| Store.PasswordManager.SaveToFile | PasswordManager.java:68-77 | one line per account, line i being account i's data string encrypted under the key with a fresh 12-byte nonce; with sound primitives every line decrypts back to its account's data string |
| Store.PasswordManager.LoadFromFile | PasswordManager.java:79-98 | succeeds exactly when every line decodes, and then the list is the sorted decoded accounts; otherwise it fails with the list holding the accounts decoded before the failing line |
| LockBoxApp.WithExtension | LockBox.java:955-957 | the result ends in `.lbx` ignoring case; a path already ending so is unchanged, any other gets `.lbx` appended |
| LockBoxApp.WithExtensionIdempotent | LockBox.java:1141-1143 | normalising a saved path twice is normalising it once |
| LockBoxApp.GetRecentFiles | LockBox.java:1528-1534 | an empty preference gives no files; otherwise entries without '\|', trailing empty ones dropped |
| LockBoxApp.GetRecentFilesJoin | LockBox.java:1528-1534 | a '\|'-free list ending in a non-empty entry is read back unchanged after joining |
| LockBoxApp.KeepableEntries | LockBox.java:1549-1556 | an entry is a candidate exactly when it is in the old list, non-empty, not the new path, and still existing |
| LockBoxApp.KeptOlderFacts | LockBox.java:1547-1557 | at most four older entries are kept, each a candidate; fewer than four only when every candidate is kept |
| LockBoxApp.KeptOlderSnoc | LockBox.java:1549-1557 | one more old entry is kept exactly when it is a candidate and fewer than four are kept |
| LockBoxApp.AddRecentStep | LockBox.java:1549-1557 | one pass of the loop appends `\|entry` exactly when the entry is kept |
| LockBoxApp.RecentAfterAddReadBack | LockBox.java:1536-1561 | after adding an existing path, the list read back starts with that path and holds at most five entries; the rest are the kept candidates in stored order and never the path itself; when fewer than four are kept, no candidate is lost |
| LockBoxApp.RecentAfterAddMissing | LockBox.java:1537-1541 | a path that does not exist leaves the preference unchanged |
| LockBoxApp.LockBox.AddRecentFile | LockBox.java:1536-1561 | the loop stores exactly the specified preference value |
| LockBoxApp.AccountListModel | LockBox.java:1379-1393 | the account list widget shows exactly the search result for the search text |
| LockBoxApp.MatchingLowerTerm | LockBox.java:1384-1390 | lower-casing the search text first does not change the matches |
| LockBoxApp.ViewPositions | LockBox.java:1385-1393 | row k of the filtered list is the account at a recorded position of the full list: a matching account with exactly k matches before it |
| LockBoxApp.ShownPositionUnique | LockBox.java:1385-1393 | at most one matching position has a given number of matches before it, so a row names one position even among equal accounts |
| LockBoxApp.UnfilteredPositions | LockBox.java:1387-1393 | without a filter, row k is position k |
| LockBoxApp.AccountsAfterUpdate | LockBox.java:1463-1474 | as written: with a row selected, the element at the row's index is replaced and nothing else changes; with no row selected, the account is appended |
| LockBoxApp.AccountsAfterDelete | LockBox.java:1440-1441 | as written: the element at the row's index is removed and the rest shift down |
| LockBoxApp.SelectedIndexMismatch | LockBox.java:1463-1468 | under the filter "b", editing the only visible row overwrites "a.com", and deleting it removes "a.com" |
| LockBoxApp.UpdateSelected | LockBox.java:1463-1474 | corrected: exactly the account shown in the selected row is replaced, at the matching position with as many matches before it as the row index |
| LockBoxApp.DeleteSelected | LockBox.java:1432-1441 | corrected: exactly the account shown in the selected row is removed, at the matching position with as many matches before it as the row index |
| LockBoxApp.UnfilteredEditsAgree | LockBox.java:1432-1474 | with an empty search field, the code as written and the corrected edits agree |
| LockBoxApp.LockBox.UpdateAccount | LockBox.java:1452-1474 | refused, with nothing changed, exactly when the trimmed website, the trimmed username or the password is empty; otherwise a row index past the end of the account list changes nothing (the exception `set` throws), and any other row index replaces, or no row appends, as written |
| LockBoxApp.LockBox.StoreEdit | LockBox.java:1463-1474 | the second half of updateAccount: out of range exactly when the row index is past the end of the account list, and then nothing changes; otherwise it replaces or appends as written |
| LockBoxApp.LockBox.DeleteAccount | LockBox.java:1432-1450 | no selection, then no confirmation, then a row index past the end of the account list (the exception `remove` throws) each change nothing; otherwise the element at the row's index is removed |
| LockBoxApp.LockBox.ChangeMasterPassword | LockBox.java:1253-1281 | an empty or unconfirmed new password changes nothing; otherwise a fresh manager keyed by the new password holds the old accounts in order; the current password is not checked |

## Left out

- The Swing window is left out: menus, dialogs, theming, the clipboard, the auto-lock timer, the detail panel, and the re-selection loop after an update (LockBox.java:1478-1486). None of it changes storage state.
- Real cryptography is left out. SHA-256, AES-GCM, Base64 and UTF-8 are opaque function values, and their laws are lemma hypotheses (`Sound`, `Authenticating`).
- `getPasswordHash` is left out because nothing in the core calls it.
- Crypto.SameKeySamePassword: assumes an injective digest, which no real 256-bit digest is. It stands in for collision resistance, so in the source distinct passwords give distinct keys only with overwhelming probability.
- Nonce uniqueness is not proved, because nonces come from `SecureRandom`.
- File and preference I/O is left out:
  - a file is the list of its lines;
  - `IOException` paths and line-separator handling are not modelled;
  - the preference store is a string field;
  - `File.exists` is a parameter.
- Text handling is ASCII only: `Character.isUpperCase`/`isLowerCase`/`isDigit`, `toLowerCase` and `CASE_INSENSITIVE_ORDER` are modelled on ASCII, not on the Unicode tables.
- Crypto.GetPasswordStrength: a Dafny string is a sequence of Unicode scalar values, while Java's `length()` counts UTF-16 code units. A password with characters outside the Basic Multilingual Plane is therefore shorter here than in Java, and the 8, 12 and 16 thresholds (CryptoUtils.java:111, 133-134) fall at different points for it. The per-character class loop differs the same way for surrogate pairs (CryptoUtils.java:120).
- Store.SortByWebsite: `Collections.sort` is a merge sort. The model specifies it by a stable insertion sort. A stable sort's output is determined by its input, so the results agree, but the merge sort's steps are not modelled.
- Crypto.Decrypt: Base64 failures, short blobs and authentication failures are the only error paths. UTF-8 decoding is not an error path: `new String(..., UTF_8)` replaces malformed input with U+FFFD (CryptoUtils.java:86), so `fromUtf8` is a total function. Any other exception the JCE could raise is not modelled.
- LockBoxApp.GetRecentFilesJoin: a path that contains '|' is not read back as one entry. The lemma requires '|'-free paths, and the model does not correct the format.
- LockBoxApp.LockBox.ChangeMasterPassword: the early return when no manager is open is not modelled, because the window's `manager` field is always set here.
- LockBoxApp.LockBox.UpdateAccount: the exception `set` throws for a row index past the end is modelled as the outcome SelectionOutOfRange with the accounts unchanged. The error dialog Swing shows for it is not modelled. DeleteAccount's DeleteOutOfRange is modelled the same way.
- LockBoxApp.LockBox.constructor: it stands for no source member. The source constructor (LockBox.java:53) builds the Swing window. The model's constructor only sets the three fields the other window operations read: the manager, the recent-files preference and the search text.

## Findings

| source | as written | input that shows it | evidently intended | confidence | as-written member | corrected member |
|---|---|---|---|---|---|---|
| LockBox.java:1463-1468 | updateAccount replaces the account at the selected row's index in the full list, although the row index counts rows of the filtered list | accounts `a.com`/`ann` and `b.com`/`bob`, search text "b", edit the single visible row `b.com`: `a.com` is overwritten and `b.com` stays | the account shown in the selected row is replaced | not executed | LockBoxApp.SelectedIndexMismatch | LockBoxApp.UpdateSelected |
| LockBox.java:1433-1441 | deleteAccount removes the account at the selected row's index in the full list, although the row index counts rows of the filtered list | the same two accounts, search text "b", delete the visible row `b.com`: `a.com` is removed | the account shown in the selected row is removed | not executed | LockBoxApp.SelectedIndexMismatch | LockBoxApp.DeleteSelected |
