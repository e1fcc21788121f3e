# SpellGym dictation trainer — a Dafny model of its core

SpellGym is a Flask web application for practising German dictations. A
dictation is a text file in the `diktate` folder. Lines of the form
`# key: value` are metadata headers: title, description, theme, exercise
and difficulty. A line starting with `# ` that is no such header is
dropped. Every other non-blank line is a sentence.

A logged-in user picks a dictation on the index page. They then type the
sentences one after another. Each answer is compared word by word with the
original and shown as coloured badges. At the end a results page counts
correct sentences and positionally correct words.

This project models that core as pure Dafny functions over immutable data:

- **Comparator** (`compare_texts`): whitespace splitting of both texts, a
  diff of the two word lists, and the loop that turns diff lines into
  verdicts. A verdict is *match*, *missing* or *extra*; the badges are
  replaced by these verdicts. The loop also yields the correctness flag.
- **Diktat**:
  - `parse_diktat`: line stripping, the header regex `#\s*(\w+):\s*(.+)`
    with lower-cased keys, and sentence collection;
  - `get_diktate_list`: the `.txt` filter and sorting;
  - `get_diktate_metadata`.

  The folder listing and the reading of a file are parameters.
- **Auth**:
  - `validate_registration`: the three error messages in their order;
  - `login_user` and `logout_user` on the session;
  - the `login_required` gate.
- **Listing**: the index page and `render_stars`.
  - The four filters: search text, theme, exercise and difficulty.
  - The `int()` conversion of the difficulty, with its fallback to 1.
  - The star widget, as five stars with a checked flag.
  - The three sorted, de-duplicated drop-down lists.
- **Trainer**: the session routes `start_diktat`, `train`, `check_answer`,
  `next_sentence` and `results`.
  - The Flask session is a `map<string, Value>`. Each route maps a session
    to a new session and a response: a redirect, a login redirect, the
    training view, the results view, or a server error. The server error
    carries the Python exception (`KeyError`, `IndexError`, `TypeError`,
    `AttributeError`) the route would raise.
  - `Handle` puts `login_required` in front of every route.
  - `Play` replays a whole dictation as a sequence of check-then-next
    requests.

Shared modules:

- **Outcomes**: `Result`, `Option`, the fault kinds, and Python's
  negative-index lookup.
- **Text**: `str.split`, `strip`, `lower`, `startswith`, `endswith`, `in`
  and `replace('.txt', '')`.
- **StrOrder**: Python's code-point string order and `sorted`.
- **Seqs**: subsequences, filtering and mapping.
- **SessionStore**: the session values.

## Model

| member | source | states |
|---|---|---|
| Comparator.CompareTexts | diktat/__init__.py:52-78 | The match and missing verdicts spell out exactly the words of the original. The match and extra verdicts spell out exactly the words of the answer. The answer counts as correct iff both texts split into the same words, iff every verdict is a match. Every verdict carries one whitespace-free word. The number of verdicts is the word count of both texts minus their longest common subsequence. |
| Comparator.Diff | diktat/__init__.py:61 | The diff of two word lists is an edit script: its kept and removed words rebuild the original, and its kept and added words rebuild the answer. It keeps as many words as the longest common subsequence of the two. |
| Comparator.ScriptKeepsAtMostLcs | diktat/__init__.py:61 | No edit script between two word lists keeps more words than their longest common subsequence. |
| Comparator.LcsDropLeft | diktat/__init__.py:61 | Dropping the first word of the original lowers the longest common subsequence by at most one. |
| Comparator.LcsDropRight | diktat/__init__.py:61 | Dropping the first word of the answer lowers the longest common subsequence by at most one. |
| Comparator.ScriptLengths | diktat/__init__.py:61 | An edit script's left side has as many words as its kept plus removed lines; its right side has as many as its kept plus added lines. |
| Comparator.UnchangedScript | diktat/__init__.py:61 | A script with no removed and no added lines has equal sides. |
| Comparator.LcsSelf | diktat/__init__.py:61 | A word list's longest common subsequence with itself is the whole list. |
| Comparator.Classify | diktat/__init__.py:63-76 | For any diff, the verdicts' original words are the diff's left side and their answer words its right side. The number of verdicts of each kind equals the number of kept, removed and added lines. The result is correct iff there is no removed and no added line. |
| Comparator.ClassifyAppend | diktat/__init__.py:66-76 | The verdict loop handles two diffs one after the other exactly as it handles them concatenated, flag included. |
| Comparator.HintLineIgnored | diktat/__init__.py:66-76 | A `?` hint line anywhere in a diff changes neither the verdicts nor the flag. |
| Comparator.ScriptCorrectMeansEqual | diktat/__init__.py:64-76 | For any edit script between two word lists, a correct verdict means the lists are equal. |
| Comparator.LongestScriptCorrectIffEqual | diktat/__init__.py:64-76 | For a script keeping a longest common subsequence, the flag is correct iff the word lists are equal. |
| Comparator.VerdictWordsAccounted | diktat/__init__.py:66-76 | Every non-extra verdict's word occurs in the original words; every non-missing verdict's word occurs in the answer words. |
| Comparator.VerdictCounts | diktat/__init__.py:66-76 | The verdicts split into matches, missing and extra words. The original's word count is matches plus missing; the answer's is matches plus extra. All verdicts match iff none is missing or extra. |
| Comparator.CompareConservesTokens | diktat/__init__.py:52-78 | Matches plus missing words equal the original's word count; matches plus extra words equal the answer's. |
| Comparator.CompareIdentity | diktat/__init__.py:52-78 | A text compared with itself is correct, and every word of it is a match, in order. |
| Comparator.CompareAgainstEmpty | diktat/__init__.py:52-78 | An empty answer is correct only for a text with no words; otherwise every original word is reported missing, in order. |
| Comparator.AllMatchReference | diktat/__init__.py:66-70 | Verdicts that are all matches are exactly the match verdicts of their original words. |
| Comparator.NoSubmissionReference | diktat/__init__.py:66-73 | Verdicts with no answer words are exactly the missing verdicts of their original words. |
| Diktat.DiktateList | diktat/__init__.py:8-14 | The listing is sorted. It holds exactly the folder's names ending in `.txt`, each as often as in the folder. |
| Diktat.TxtNamesMembers | diktat/__init__.py:11 | A name survives the filter iff it is in the folder and ends with `.txt`. |
| Diktat.HeaderMatch | diktat/__init__.py:30 | A regex match starts with `#`. Its key is a non-empty run of word characters. Its value is non-empty and holds no newline. The full characterisation is the pair Diktat.HeaderRoundTrip and Diktat.HeaderMatchForm. |
| Diktat.HeaderRoundTrip | diktat/__init__.py:30 | A line made of `#`, any run of whitespace, a word-character key, `:`, any run of whitespace, a value that does not start with whitespace and holds no newline, then nothing or a newline and anything, is matched as exactly that key and value. |
| Diktat.HeaderMatchForm | diktat/__init__.py:30 | Conversely, every match is of that form: the line is `#`, whitespace, the key, `:`, whitespace, the value, then nothing or a newline. The key is a run of word characters. The value holds no newline and does not start with whitespace unless it is that single character, which `\s*` gives back to `(.+)`. |
| Diktat.ParseLine | diktat/__init__.py:27-37 | Classifies one line as a header, a dropped `# ` line, a sentence or a blank line. What each case means is stated by Diktat.ParseLineCases. |
| Diktat.ParseDiktat | diktat/__init__.py:16-39 | `parse_diktat` over a file's lines. Its meaning is stated by Diktat.SentencesAreKeptLines (the sentences), Diktat.MetadataFromLastHeader (the metadata) and Diktat.ParsedWellFormed. |
| Diktat.ParseLineCases | diktat/__init__.py:26-37 | After stripping, a line is a sentence iff it is non-empty and does not start with `# `; the sentence is the stripped line. It is a header line iff it starts with `# `. It yields a metadata entry iff the regex also matches, and the key is then lower-cased. |
| Diktat.ParsedWellFormed | diktat/__init__.py:26-37 | Every parsed sentence is non-empty, stripped, and does not start with `# `. Every metadata key is lower case and every value is non-empty. |
| Diktat.SentencesAreKeptLines | diktat/__init__.py:26-37 | The sentences are the stripped non-header, non-blank lines of the file, in file order. |
| Diktat.ParseAppend | diktat/__init__.py:26-37 | Parsing two files' lines together gives the sentences of both in order. The metadata of the second part overrides that of the first. |
| Diktat.FoldAppend | diktat/__init__.py:26-37 | The parsing loop over concatenated lines is the loop over each part with the second part's metadata overriding the first's. |
| Diktat.KindsAppend | diktat/__init__.py:26-27 | Classifying concatenated lines is classifying each part. |
| Diktat.DroppedHeaderIgnored | diktat/__init__.py:28-34 | A `# ` line that the regex does not match can be removed without changing the parse. |
| Diktat.MetadataFromLastHeader | diktat/__init__.py:28-34 | A key has metadata iff some line is a matching header for it. Its value then comes from the last such line. |
| Diktat.DiktateMetadata | diktat/__init__.py:41-50 | There is one metadata map per listed file, in listing order. Each map holds the file's header keys plus `filename`; `filename` is the file name and every other key has its header value. |
| Auth.ValidateRegistration | auth/__init__.py:23-36 | Each of the three messages appears iff its condition holds: an empty field, differing passwords, a password under 8 characters. The list is empty iff the form is valid. Messages keep the source's order, at most one each. |
| Auth.EmptyPasswordTwoErrors | auth/__init__.py:27-34 | An empty password always reports both the missing-field and the too-short message. |
| Auth.LoginUser | auth/__init__.py:13-16 | Login sets `user_id` and `username` from the user and leaves every other session key as it was. |
| Auth.LogoutUser | auth/__init__.py:18-21 | Logout removes exactly `user_id` and `username`; every other key keeps its value. |
| Auth.LogoutUndoesLogin | auth/__init__.py:13-21 | Logging in and then out leaves the session as a plain logout would. |
| Auth.LoginRequired | auth/__init__.py:5-11 | The gate lets a request through iff the session has `user_id`; otherwise it redirects to login with the requested URL as `next`. |
| Auth.GateFollowsLogin | auth/__init__.py:5-21 | After login the gate always lets through; after logout it always redirects to login. |
| Listing.RenderStars | app.py:33-42 | There are always five stars, all named `rating-` followed by the rating's decimal text. Star i is checked iff i < rating. The number checked is the rating clamped to 0..5. |
| Listing.CheckedPrefix | app.py:36-40 | Stars whose checked ones are exactly the first k have k checked stars. |
| Listing.ShowNatValue | app.py:38 | The decimal text of a natural number reads back as that number. |
| Listing.ParseInt | app.py:80 | `int()` on a string. What it returns is stated by Listing.ParseShowInt, Listing.ParseDigits and Listing.ParseNegated, including the `ValueError` past 4300 digits. |
| Listing.ParseShowInt | app.py:79-82 | `int()` of the decimal text of any integer, negative ones included, gives back that integer when it has at most 4300 digits. With more digits `int()` raises `ValueError`. |
| Listing.ParseDigits | app.py:80 | `int()` of a body of ASCII digits with single underscores is the value of its digits if there are at most 4300 digits, and raises `ValueError` otherwise. |
| Listing.ParseNegated | app.py:80 | `int()` of a minus sign followed by such a body is the negated value, under the same 4300-digit limit. |
| Listing.DigitBodyFitsStr | app.py:80 | The value of a digit body has at most as many decimal digits as the body. |
| Listing.RatingOf | app.py:79-82 | The rating is 1 when the difficulty header is missing or `int()` raises on it, and the converted value otherwise. |
| Listing.RatingOfShown | app.py:79-82 | A difficulty written as the decimal text of n rates n, or 1 once n has more than 4300 digits. |
| Listing.RatingFitsStr | app.py:79-83 | Every rating has at most 4300 digits, so `str(rating)` in `render_stars` never raises. |
| Listing.FilterDiktate | app.py:58-85 | The listed dictations are a subsequence of all dictations. Every listed one passes the search, theme, exercise and difficulty tests and carries the stars of its rating. Every dictation that passes the tests is listed. |
| Listing.NoFiltersListAll | app.py:49-85 | With no search text and no drop-down choice, every dictation is listed, in order. |
| Listing.Dropdown | app.py:88-90 | A drop-down list is strictly sorted, so it holds no duplicates. It holds exactly the non-empty values the key takes in some dictation. |
| Listing.FieldValues | app.py:88-90 | The collected values are exactly the non-empty values of the key. |
| Listing.Index | app.py:45-100 | The listed dictations are a subsequence of all dictations. Each passes the filters and carries the stars of its rating. Every dictation passing the filters is listed. The theme, exercise and difficulty lists are strictly sorted and hold exactly the non-empty values of `thema`, `übung` and `schwierigkeit` over all dictations. The search text shown is the stripped query. |
| StrOrder.Sort | diktat/__init__.py:12 | `sorted` returns the same names, as a permutation, in code-point order. |
| StrOrder.SortedUnique | diktat/__init__.py:12 | Two sorted lists with the same elements are equal, so the sorted order is unique. |
| StrOrder.SortIdempotent | diktat/__init__.py:12 | Sorting a sorted list changes nothing. |
| StrOrder.SortUnique | app.py:88-90 | `sorted(set(...))` is strictly sorted and holds exactly the input's elements. |
| StrOrder.LeTotal | diktat/__init__.py:12 | Python's string order is total. |
| StrOrder.LeTransitive | diktat/__init__.py:12 | Python's string order is transitive. |
| StrOrder.LeAntisymmetric | diktat/__init__.py:12 | Python's string order is antisymmetric. |
| Text.Split | diktat/__init__.py:58-59 | `split()` yields non-empty words with no whitespace. |
| Text.SplitKeepsNonSpace | diktat/__init__.py:58-59 | Concatenating the words of `split()` gives the text with its whitespace removed. |
| Text.SplitJoin | diktat/__init__.py:58-59 | Splitting words joined by single spaces gives the words back. |
| Text.SplitSpacePrefix | diktat/__init__.py:58-59 | Leading whitespace does not change `split()`. |
| Text.Strip | diktat/__init__.py:27 | `strip()` yields a text that neither starts nor ends with whitespace. |
| Text.StripIsTrimmedSlice | diktat/__init__.py:27 | `strip()` yields a slice of the text; everything cut off on either side is whitespace. |
| Text.StripIdempotent | diktat/__init__.py:27 | Stripping twice is stripping once. |
| Text.LowerIdempotent | diktat/__init__.py:32 | Lower-casing twice is lower-casing once. |
| Text.RemoveTxtOfFileName | app.py:187 | The fallback title of `stem.txt` is `stem` whenever the stem does not contain `.txt`, so `Lektion.1.txt` gives `Lektion.1`. |
| Trainer.StartDiktat | app.py:178-193 | With no name, or one not in the listing, the result is the index redirect with the session unchanged. Otherwise the session holds the file's sentences at index 0 with no attempts and no feedback, plus the display name. It has exactly the old keys plus the run keys, and other keys are kept. |
| Trainer.FreshRun | app.py:187-191 | A fresh run holds the given sentences at index 0, with an empty log, no feedback and the title. It adds exactly the run keys and keeps every other key. |
| Trainer.DisplayName | app.py:187 | The display name is the `titel` header when present, else the file name without `.txt`. |
| Trainer.Train | app.py:195-222 | Without sentences or index the route redirects to the index. It redirects to results iff the index is past the last sentence. For an index in range it shows that sentence, numbered from 1, with the total and the stored feedback. An index below minus the sentence count raises `IndexError`. |
| Trainer.AttemptFor | app.py:229-244 | The recorded attempt keeps the original and the answer. It is correct iff they split into the same words, and its feedback accounts for exactly the words of both. |
| Trainer.CheckAnswer | app.py:224-246 | A missing `sentences` or `current_index` raises `KeyError`, in that order. On success the attempt for the current sentence is appended to the log and the route redirects to training. |
| Trainer.Record | app.py:232-244 | Feedback and flag are stored, and the attempt is appended to the log; a missing log starts empty. A stored value that is not a list raises `AttributeError` at `append`. No key outside feedback, flag and attempts changes. On success the run reads back with the same sentences and index and the log extended by the attempt. |
| Trainer.CheckAnswerKeepsOthers | app.py:224-246 | Checking an answer changes no session key other than feedback, flag and attempts. |
| Trainer.NextSentence | app.py:248-255 | A missing index raises `KeyError`. Otherwise the index goes up by one, with no bounds check, and feedback and flag are reset to None. No other key changes. |
| Trainer.Summarize | app.py:275-298 | The summary keeps the name and the attempts. Correct and incorrect attempts partition the log: both are subsequences, together a permutation of it, each attempt in the right one. The correct-sentence count is their number. Correct words never exceed total words. |
| Trainer.Tally | app.py:276-292 | The counting loops give the number of attempts, of correct ones, of original words, and of positionally matching words. |
| Trainer.TallyStep | app.py:276-292 | One more attempt adds its flag, its word count and its positional matches to the running counts. |
| Trainer.CountMatches | app.py:289-292 | The inner loop counts the positions, below the shorter length, where both word lists hold the same word. |
| Trainer.MatchesBelowCounts | app.py:289-292 | The match count below n is the number of positions below n where the words agree. |
| Trainer.PositionalMatchesCounts | app.py:289-292 | The positional word score is the size of the set of agreeing positions, at most either list's length. |
| Trainer.CorrectWordsBound | app.py:280-292 | The correct-word count never exceeds the total word count. |
| Trainer.CorrectAnswersScoreFully | app.py:283-292 | When every answer has the original's words, the correct-word count equals the total word count. |
| Trainer.RecordedCorrectScoresFully | app.py:231-292 | When every recorded attempt was judged correct, every word counts as correct. |
| Trainer.ExtraTrailingWordsScoreFully | app.py:283-292 | An answer with extra trailing words is judged incorrect, yet every one of its original words still scores as correct. |
| Trainer.Results | app.py:265-318 | Without an attempts log the route redirects to the index. Otherwise it shows the summary of the log under the stored name, or `Unbekannt`. The session loses exactly the six run keys. Correct words never exceed total words. |
| Trainer.ResultsEndRun | app.py:269-308 | After the results page, both training and the results page redirect to the index. |
| Trainer.Handle | auth/__init__.py:5-11 | Every route runs behind the login gate: without `user_id` the answer is the login redirect with the session unchanged; with it, the route itself. |
| Trainer.Route | app.py:224-228 | Dispatches a request to its route; a check request without `user_input` answers the empty string. Its behaviour behind the login gate is stated by Trainer.Handle and Trainer.RoutesKeepLogin. |
| Trainer.RoutesKeepLogin | app.py:178-308 | No dictation route changes or removes the logged-in user. |
| Trainer.CheckThenNextAdvances | app.py:224-255 | Checking an answer and moving on advances the index by one. The log grows by the attempt for the current sentence and feedback is reset. Only index, feedback, flag and attempts change. |
| Trainer.CheckRecords | app.py:224-246 | A check on a running dictation records exactly the attempt for the current sentence. |
| Trainer.CheckTwiceRecordsTwice | app.py:224-246 | Submitting twice for the same sentence records two attempts for it without moving on. |
| Trainer.NextWithoutCheckSkips | app.py:248-255 | Moving on without checking skips the sentence: the index advances and nothing is recorded. |
| Trainer.AttemptsFor | app.py:239-244 | Answering the sentences in turn records one attempt per sentence. |
| Trainer.AttemptsForAt | app.py:239-244 | Attempt i pairs sentence i with answer i. |
| Trainer.PlayRecords | app.py:224-255 | Replaying answers from any point of a run appends one attempt per answered sentence, in order. Only index, feedback, flag and attempts change. |
| Trainer.PlayFromStart | app.py:224-255 | Answering every sentence of a fresh run leaves the index at the end with one attempt per sentence. |
| Trainer.FinishedRun | app.py:195-308 | A run at its end goes to the results page. The summary holds its log and name, and the session returns to the state before the start. |
| Trainer.RunToResults | app.py:178-308 | A fresh run answered sentence by sentence ends on the results page with exactly its attempts. |
| Trainer.FullDictation | app.py:178-318 | Starting a dictation and answering each sentence once leads to the results page. It counts one attempt per sentence, in order, under the display name. The session afterwards is the session before the start without the run keys. |
| Trainer.EmptyDictation | app.py:178-298 | A dictation without sentences goes straight to an empty results page. |
| Outcomes.PyIndex | app.py:209 | Python indexing: a non-negative index in range, or a negative one counted from the end, gives that element; anything else raises `IndexError`. |
| Seqs.FilterPartition | app.py:297-298 | The two list comprehensions split the attempts into complementary parts whose lengths and multisets add up to the whole. |
| Seqs.FilterSnoc | app.py:277 | Filtering one more element appends it iff it passes. |

## Left out

- HTML: the templates, the badge markup of `compare_texts` and the star markup of `render_stars` are not modelled. Verdicts and star records carry the same information.
- Comparator.Diff: this is not `difflib.ndiff`'s exact alignment. The diff matcher's longest-contiguous-block heuristic, its junk handling and its tie-breaking are replaced by an edit script that keeps a longest common subsequence.
  - The verdict-count equation in Comparator.CompareTexts is about this alignment.
  - Classify, ScriptCorrectMeansEqual, HintLineIgnored, VerdictCounts and the word-accounting facts hold for every edit script, and so for whatever `ndiff` produces.
  - `ndiff`'s `?` lines are modelled only as an ignored line kind.
- Trainer.Results: the percentage `word_accuracy` (app.py:294) is a float division and is not computed. The integer counts it is made from are modelled.
- Text.IsWordChar: the regex class `\w` is exact only for code points up to U+00FF; letters above that are treated as non-word characters.
- Text.LowerChar: `str.lower()` is exact only up to U+00FF; above that characters are left unchanged.
- Listing.ParseInt: Python's `int()` also accepts non-ASCII decimal digits; the model accepts ASCII digits only. The 4300-digit limit is CPython's default from version 3.11 on (`sys.set_int_max_str_digits` can change it); earlier versions have no limit.
- Auth.ValidateRegistration: the model takes the three fields as strings, so a field missing from the form (`None`) is not modelled. In the source:
  - A missing `password` raises `TypeError` at `len(password)` (auth/__init__.py:33), after the missing-field message has been added.
  - A missing `username` only takes the `not username` branch (auth/__init__.py:27) and gives the missing-field message, as an empty one does.
  - A missing `confirm_password` differs from any password string, so it gives the mismatch message (auth/__init__.py:30), even when the password is empty.
- File system: `os.listdir` and reading a dictation file become parameters (a list of names, and a function from a name to its lines). UTF-8 decoding and `readlines` splitting are left to that function.
  - A missing folder is the empty listing, which is what `get_diktate_list` returns on `FileNotFoundError`.
  - A file vanishing between listing and opening is not modelled.
- Session values of an unexpected type: the model answers `TypeError` where Python may raise a different exception or carry on. Python's use of `True`/`False` as integer indices is not modelled.
- Trainer.Record: an `attempts` value holding a list of strings (`StrList`) answers `AttributeError`, whereas Python would append to it. The application only ever stores attempt records there. For every other non-list value, Python also raises `AttributeError`.
- Login, register and logout routes: not modelled as routes.
  - Login (app.py:102-118) checks the credentials against the user database, which is not part of this model. On success its session effect is Auth.LoginUser.
  - Logout (app.py:152-156) reads no database; its session effect is Auth.LogoutUser.
  - Register (app.py:120-150) reads and writes the user database and never logs the user in.
- Flash messages: `flash` appends to the session key `_flashes`. Failed login (app.py:116) and every register outcome (app.py:133, 140, 145, 148) write it. No modelled route reads or writes `_flashes`.
- Settings route and theme context processor: not modelled. The settings route writes `theme` (app.py:164) and `settings_back_url` (app.py:174) and pops `settings_back_url` (app.py:166). No modelled route reads either key, and every modelled route keeps keys it does not name.
- `schwierige_woerter` and the `database` package are not part of this model.
- Server start-up: the `if __name__ == '__main__'` block (app.py:257-263) is not modelled. It calls `app.run` before the `/results` route is declared, so when app.py is started as a script that route is never registered. The model assumes all routes are registered, as under a WSGI server.
