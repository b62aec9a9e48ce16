# Street-furniture incident reports: a verified model of the core

The application collects incident reports about street furniture (street
lights, benches, bins, signs, containers). It reads the asset tag on a
photographed label, categorises the report, and stores it as a JSON record.
Technicians list the records by category, see them bundled by street, and
see them tiered by security severity.

This project models the parts of that system that carry decisions, and
proves what they promise:

- `street_normalize.dfy` (module `StreetNormalize`): `normalize_street`, the
  five-step street-name normaliser. It lower-cases the name, transliterates
  it, drops punctuation, strips one leading street-type word and collapses
  whitespace.
- `street_bundling.dfy` (module `StreetBundling`): `group_by_street`. It
  files every record under the normalised street of its location and keeps
  the streets that have at least two records. The method is proved equal to
  a specification function. That function is proved to partition its input,
  to keep input order inside a group, and to order the groups by their
  street's first appearance.
- `security_alerts.dfy` (module `SecurityAlerts`): `classify_and_alert`. It
  covers the text selection, the keyword counts, the adjustment of the
  classifier's score, the level thresholds, the fallback table, the alert
  decision, and the in-place update of the three `security_*` fields of the
  record.
- `tag_extraction.dfy` (module `TagExtraction`): the six `re.search`
  patterns of the tag reader and the "No disponible" defaults of the stored
  tag fields.
- `category_heuristic.dfy` (module `CategoryHeuristic`): the keyword
  categoriser used when the zero-shot classifier fails. It picks the first
  category with the largest count, and "Otros" when no keyword matches.
- `report_intake.dfy` (module `ReportIntake`): the checks before a report is
  processed, the category assignment, the stored record, and the loop that
  loads stored records, defaults a missing category to "Desconocida" and
  applies the technician's filter.
- `text.dfy` (module `Text`): Python's `\s`, `\w` and `str.lower` over
  ASCII and Latin-1, the substring test `in`, and keyword counting.
- `wrappers.dfy` (module `Wrappers`): `Option` and `Result`.

The machine-learning models, the cloud storage, the text recognition
service and the chat webhook are outside the model. Their results enter as
parameters:
- the classifier's answer is a `ClassifierOutcome` (an answer or a failure);
- the recognised label text is a `string`;
- the loaded records are a sequence of maps;
- whether the webhook is configured is its URL string.

Four behaviours of the code are worth knowing before reading the model:
- **Prefix stripping.** The street-type prefix is removed once, and only
  when whitespace follows it. `ExampleNoSpaceAfterAbbreviation` shows that
  "Avda.Independencia" gives "avdaindependencia". `ExamplePrefixOnlyOnce`
  shows that normalising "calle calle mayor" twice does not give the same
  key twice.
- **The optional period after `avda`.** Punctuation is removed before the
  prefix is stripped, so the period never reaches the prefix pattern.
  `NormalizeWords` proves that the word stripped is never "avda.".
- **Group order.** The groups come out in the order their streets first
  appear in the input. `GroupsInFirstSeenOrder` proves that order.
- **Capitals in keys.** `unidecode` spells `¢`, `£`, `¥`, `§` and `¶` with
  the capitals C, P, S and Y, after lower-casing has run. So a key can hold
  those four capitals: `ExampleSectionSign` shows "§x" gives "SSx". A second
  pass lower-cases those capitals, so normalising such a key again changes
  it: `ExampleSectionAgain` shows "SSx" gives "ssx".

## Model

| member | source | states |
|---|---|---|
| Text.LowerChar | street_bundling.py:12 | lower-casing a character never yields an ASCII capital and keeps its ASCII, word-character and whitespace status |
| Text.Contains | security_alerts.py:47 | Python's `word in text` holds exactly when `word` occurs at some position of `text` |
| Text.KeywordCount | security_alerts.py:47-48 | the count is at most the number of keywords, is 0 exactly when no keyword occurs, and is the full length exactly when all occur |
| Text.KeywordCountOnly | app.py:412-416 | when `w` is the only keyword of a list that occurs in the text, the count is the number of times `w` appears in the list |
| Text.LowerStrFixed | street_bundling.py:12 | lower-casing text that is already lower-case ASCII leaves it unchanged |
| StreetNormalize.TranslitChar | street_bundling.py:14 | every Latin-1 character becomes ASCII text, spelt as `unidecode` spells it: ASCII stays, C1 controls and the soft hyphen vanish, symbols are spelt out, and accented letters lose their accents |
| StreetNormalize.TranslitSymbol | street_bundling.py:14 | the symbols U+00A0..U+00BF are spelt in ASCII, e.g. `§` as "SS" and `½` as " 1/2" |
| StreetNormalize.Transliterate | street_bundling.py:14 | the transliterated text is all ASCII |
| StreetNormalize.TransliterateAppend | street_bundling.py:14 | transliteration works character by character: it distributes over concatenation |
| StreetNormalize.TransliterateAscii | street_bundling.py:14 | ASCII text is left unchanged |
| StreetNormalize.TransliterateLowerCapitals | street_bundling.py:12-14 | after lower-casing and transliterating, the only ASCII capitals are the C, P, S and Y spelt for `¢ £ ¥ § ¶`, and there are none when the text holds none of those symbols |
| StreetNormalize.RemovePunctuation | street_bundling.py:16 | the result keeps exactly the word and whitespace characters of the input |
| StreetNormalize.RemovePunctuationAppend | street_bundling.py:16 | punctuation removal distributes over concatenation |
| StreetNormalize.RemovePunctuationKeepsClean | street_bundling.py:16 | text of word and whitespace characters only is unchanged |
| StreetNormalize.FirstAlternative | street_bundling.py:18 | the alternative the regex engine takes is the first one, in pattern order, followed by whitespace at position 0; there is none exactly when no alternative is |
| StreetNormalize.TrimStart | street_bundling.py:18 | the greedy `\s+` removes exactly the leading whitespace run |
| StreetNormalize.StripStreetPrefix | street_bundling.py:18 | without a matching street-type word the text is unchanged; with one, that word and all the whitespace after it are removed |
| StreetNormalize.SingleSpaces | street_bundling.py:20 | every whitespace run becomes one plain space, and no other character is introduced |
| StreetNormalize.SingleSpacesWords | street_bundling.py:20 | replacing whitespace runs by one space keeps the words (`split()`) of the text |
| StreetNormalize.TrimEnd | street_bundling.py:20 | `.strip()` on the right: a prefix of the text that does not end in whitespace, and everything it drops is whitespace |
| StreetNormalize.WordsTrimEnd | street_bundling.py:20 | dropping trailing whitespace keeps the words of the text |
| StreetNormalize.CollapseSpaces | street_bundling.py:20 | the result has no leading or trailing whitespace, only plain single spaces, and only characters of the input |
| StreetNormalize.CollapseIsJoinedWords | street_bundling.py:20 | collapsing is `" ".join(s.split())`: the words of the text joined by single spaces, and it keeps the words |
| StreetNormalize.SplitJoin | street_bundling.py:20 | splitting words joined by single spaces gives the words back |
| StreetNormalize.CollapsedIsKey | street_bundling.py:20 | collapsing ASCII word and space characters whose only capitals are C, P, S and Y yields a street key, a lower-case one when there are no capitals |
| StreetNormalize.Normalize | street_bundling.py:6-21 | every normalised name is a street key: lower-case ASCII letters, digits, `_`, the capitals C, P, S and Y, and single inner spaces; it is lower-case when the name holds none of `¢ £ ¥ § ¶` |
| StreetNormalize.NormalizeWords | street_bundling.py:16-20 | the key's words are the words of the cleaned name, less the street type when the name starts with one followed by whitespace; that street type is never "avda." |
| StreetNormalize.NormalizeKeyAgain | street_bundling.py:6-21 | normalising a lower-case key again leaves it unchanged, unless it starts with a street-type word and a space, in which case that word is removed |
| StreetNormalize.NormalizeKeyLowered | street_bundling.py:6-21 | normalising any key again gives the same as normalising its lower-case form, which is a lower-case key; the result is a lower-case key, so a key holding C, P, S or Y is changed |
| StreetNormalize.StripKeyPrefix | street_bundling.py:18 | on a key, prefix stripping removes exactly a leading street-type word and its one space |
| StreetNormalize.CleanStepsFixKey | street_bundling.py:12-16 | the lower-case, transliteration and punctuation steps leave a lower-case key unchanged |
| StreetNormalize.CollapseKeyFixed | street_bundling.py:20 | collapsing leaves a key unchanged |
| StreetNormalize.NormalizeByStages | street_bundling.py:16-20 | when the cleaned and prefix-stripped name is already a street key, that is the normalised name: step 5 has nothing left to do |
| StreetNormalize.LowerStrTwice | street_bundling.py:12 | lower-casing is idempotent |
| StreetNormalize.NormalizeIgnoresCase | street_bundling.py:12 | two names that lower-case alike normalise alike |
| StreetNormalize.CollapseLeadingSpace | street_bundling.py:20 | a leading space in front of a key is dropped |
| StreetNormalize.ExampleAvdaIndependencia | street_bundling.py:9 | "Avda. Independencia" normalises to "independencia" |
| StreetNormalize.ExampleUpperCase | street_bundling.py:12-18 | "AVDA INDEPENDENCIA" normalises to "independencia" |
| StreetNormalize.ExamplePrefixOnlyOnce | street_bundling.py:18 | "calle" alone and "callejon x" are kept, only one "calle" of "calle calle mayor" is stripped, and a second pass strips the next one |
| StreetNormalize.ExampleLeadingSpace | street_bundling.py:18-20 | " calle mayor" keeps "calle", because the prefix must sit at position 0 |
| StreetNormalize.ExampleNoSpaceAfterAbbreviation | street_bundling.py:16-18 | "Avda.Independencia" gives "avdaindependencia": without whitespace after the abbreviation nothing is stripped |
| StreetNormalize.ExampleSectionSign | street_bundling.py:12-20 | "§x" gives "SSx": a capital spelt by `unidecode` survives in the key |
| StreetNormalize.ExampleSectionAgain | street_bundling.py:12 | normalising the key "SSx" again gives "ssx": step 1 lower-cases the capitals a first pass let through |
| StreetBundling.BeforeComma | street_bundling.py:28 | `loc.split(",")[0]` is the longest comma-free prefix of the location |
| StreetBundling.StreetKey | street_bundling.py:27-29 | every record's bucket key is a street key, lower-case unless its street holds one of `¢ £ ¥ § ¶` |
| StreetBundling.StreetKeyWords | street_bundling.py:27-29 | the words of a record's key are those of its cleaned street, less a leading street type followed by whitespace |
| StreetBundling.BucketMembers | street_bundling.py:30 | a bucket holds exactly the records with its key, and is empty when no record has that key |
| StreetBundling.FirstSeenKeysFacts | street_bundling.py:24-30 | the dictionary's keys are exactly the keys that occur, each once |
| StreetBundling.FirstIndex | street_bundling.py:33 | the position of the first record with a key, and no earlier record has it |
| StreetBundling.GroupsOfContents | street_bundling.py:32-40 | every group is a full bucket of at least two records with its count, and every bucket of at least two records has its group |
| StreetBundling.GroupByStreet | street_bundling.py:23-40 | the method returns exactly the specified groups |
| StreetBundling.FileByStreet | street_bundling.py:24-30 | after the first loop, the ordered keys and buckets are those of the whole input |
| StreetBundling.KeepCrowded | street_bundling.py:32-40 | the second loop keeps exactly the buckets of two or more records, in key order |
| StreetBundling.FileOne | street_bundling.py:27-30 | filing one more record appends it to its bucket, creating the bucket and key when new |
| StreetBundling.GroupsWellFormed | street_bundling.py:32-40 | each group's count is its length and at least 2; every crowded street has its group; streets are distinct; no input gives no groups |
| StreetBundling.FirstSeenKeysOrdered | street_bundling.py:24-30 | the dictionary's keys are in order of first appearance |
| StreetBundling.GroupsInFirstSeenOrder | street_bundling.py:33 | groups come out in the order their street first appears in the input |
| StreetBundling.DroppedMembers | street_bundling.py:34 | the records left out are exactly those alone on their street |
| StreetBundling.GroupsPartition | street_bundling.py:23-40 | the grouped records and the dropped records together are the input as a multiset, and the counts plus the dropped records sum to the input length |
| StreetBundling.BucketMultiplicity | street_bundling.py:30 | a bucket holds every record with its key as many times as the input does, and no other record |
| StreetBundling.BucketAppend | street_bundling.py:30 | bucketing two batches one after the other appends their buckets |
| StreetBundling.ExampleStreetKeys | street_bundling.py:27 | the unaccented field is used when the accented one is absent, and an accented field that is present but empty wins |
| SecurityAlerts.FirstNonEmpty | security_alerts.py:11 | the text is the first non-empty field among the three, and empty exactly when all are |
| SecurityAlerts.HighCount | security_alerts.py:46-47 | the high-severity count is at most the 37 keywords |
| SecurityAlerts.MediumCount | security_alerts.py:46-48 | the medium-severity count is at most the 27 keywords |
| SecurityAlerts.Fallback | security_alerts.py:88-104 | two high-severity keywords give "alto"/"vandalismo"; otherwise one high or at least two medium ones give "medio"/"daño intencional"; otherwise "bajo"/"otro"; the score is 0.5 unless the level is "bajo" |
| SecurityAlerts.AdjustedScore | security_alerts.py:56-60 | the score never decreases unless capped at 1, stays at most 1, and is unchanged without keywords |
| SecurityAlerts.LevelFor | security_alerts.py:62-68 | "alto" exactly when the score reaches 0.7 or two high keywords occur; "bajo" exactly when the score is under 0.5, no high keyword and fewer than two medium ones occur |
| SecurityAlerts.Assess | security_alerts.py:11-104 | empty text gives "otro"/0.0/"bajo"; two high keywords force "alto"; one high or two medium keywords force at least "medio"; a classifier answer keeps its label, is never tiered below the fallback and keeps a score in [answer, 1] |
| SecurityAlerts.ExampleRotoInProtocolo | security_alerts.py:47 | keywords match as substrings: "roto" is found in "protocolo" |
| SecurityAlerts.ExampleHitInWhite | security_alerts.py:46-48 | "hit" is found in "White" once it is lower-cased |
| SecurityAlerts.AlertAttempted | security_alerts.py:56-77 | no alert without text, a classifier answer and a webhook; with all three, an alert exactly when a high-severity keyword occurs, two medium ones do, or the adjusted score reaches 0.5 |
| SecurityAlerts.UpdateTouchesOnlySecurityFields | security_alerts.py:13-18 | the update adds the three security fields with the assessed values and changes no other field |
| SecurityAlerts.Incident.ClassifyAndAlert | security_alerts.py:9-106 | the record itself is returned, its new fields are the old ones updated with the assessment of its selected text, and the alert is posted exactly when the classifier answered, a webhook is set and the stored level is "medio" or "alto" |
| TagExtraction.SpaceRun | app.py:324 | `\s*` consumes exactly the maximal whitespace run |
| TagExtraction.ClassRun | app.py:324-329 | a greedy character-class run consumes the maximal run of that class |
| TagExtraction.CaptureAfter | app.py:324-329 | after the label, trying the capture with fewer and fewer whitespace characters taken finds it at the last position where it can begin, as a whole run of its class or an ISO date; nothing when it can begin nowhere |
| TagExtraction.MatchAt | app.py:324-329 | the pattern matches at a position exactly when the label is there, then whitespace, then a place where the capture can begin; the capture begins at the last such place |
| TagExtraction.SearchFrom | app.py:324-329 | `re.search` returns the capture at the leftmost position where the pattern matches, and nothing when it matches nowhere |
| TagExtraction.SearchCapture | app.py:324-329 | the search result is nothing exactly when the pattern matches nowhere, and otherwise the capture of the leftmost match, taken after the label and its whitespace |
| TagExtraction.IdMatchAtIff | app.py:324 | the ID pattern matches at a position exactly when "ID:" is there followed by optional whitespace and a tag character, and it then captures the whole run of tag characters after all that whitespace |
| TagExtraction.TagValue | app.py:432-439 | a field whose capture is a date or a run without spaces is "No disponible" exactly when its pattern matches nowhere, and otherwise the capture of the leftmost match |
| TagExtraction.IdField | app.py:433 | the ID is "No disponible" exactly when the pattern matches nowhere; otherwise it is the run of `[A-Z0-9-]` captured by the leftmost match, after the label and its whitespace |
| TagExtraction.StateField | app.py:435 | the state is "No disponible" exactly when its pattern matches nowhere; otherwise it is the `\w` word captured by the leftmost match |
| TagExtraction.DateFields | app.py:436-437 | each date is "No disponible" exactly when its pattern matches nowhere; otherwise the dddd-dd-dd date captured by the leftmost match |
| TagExtraction.LineFields | app.py:438-439 | type and observations are "No disponible" when their patterns match nowhere; otherwise the run of non-newline characters of the leftmost match, beginning at the last place the whitespace after the label lets it begin, so a label at the end of a line takes the next line |
| CategoryHeuristic.Counts | app.py:412-416 | each count is the number of keywords of its list found in the lower-cased description, at most the list's length |
| CategoryHeuristic.FirstMaxIndex | app.py:428 | `max` picks an entry with the largest count, and no earlier entry has that count |
| CategoryHeuristic.HeuristicCategoryChoice | app.py:418-428 | the category is "Otros" exactly when every count is 0; otherwise it has a positive maximal count and every category listed before it has less |
| CategoryHeuristic.OtrosIffNoKeyword | app.py:401-428 | the category is "Otros" exactly when no keyword of any list occurs in the lower-cased description |
| CategoryHeuristic.ContenedorGoesToPapelera | app.py:407-428 | a description whose only keyword is "contenedor" is categorised Papelera, which ties with Contenedor and is listed first |
| ReportIntake.ValidateReport | app.py:298-309 | processing goes on exactly when an image, a location, a description and the classifier are present; the camera picture wins over the upload; the missing-image and missing-field errors are reported in that order |
| ReportIntake.AssignCategory | app.py:355-428 | the category is the classifier's answer when there is one, and otherwise the keyword heuristic's |
| ReportIntake.HeuristicCategoryFilterable | app.py:471 | every heuristic category is a filter option, and none is "Todas" or "Desconocida" |
| ReportIntake.WithCategoryFacts | app.py:486-487 | defaulting gives a non-empty category, "Desconocida" exactly for a missing or empty one, keeps every other field, and is idempotent |
| ReportIntake.LoadIncidences | app.py:475-490 | the loop collects exactly the specified visible records, in load order |
| ReportIntake.VisibleMembership | app.py:486-490 | a record is listed exactly when it is a loaded record, defaulted, whose category passes the filter |
| ReportIntake.VisibleAppend | app.py:478-490 | listing two batches one after the other appends their lists |
| ReportIntake.VisibleCategories | app.py:486-490 | every listed record has a non-empty category, equal to the filter unless the filter is "Todas"; "Desconocida" records show only under "Todas" |
| ReportIntake.ShowAllKeepsEverything | app.py:489 | under "Todas" every loaded record is listed, defaulted, in order |
| ReportIntake.StoredCategorySurvivesLoading | app.py:486-490 | a record stored with a non-empty category loads back unchanged and shows under its own category |

## Left out

- Unicode beyond Latin-1: lower-casing, `\s`, `\w` and the `unidecode` transliteration are modelled over U+0000..U+00FF. Other characters are not lower-cased and transliterate to nothing, where `unidecode` has a table for most of them.
- The zero-shot classifier, the MarianMT translation and the text recognition of the label are foreign machine-learning or network calls. Their outputs are parameters.
- Floating-point scores are modelled as exact reals. Rounding of `score + 0.3` is not modelled.
- The category boosts from the ID prefix and the tag type on the classifier's probabilities (app.py:364-395) are floating-point adjustments of model output. `ReportIntake.AssignCategory` takes the classifier's final choice as an input.
- Storage I/O is not modelled: the upload of the record, the listing of stored objects, the skipping of keys that do not end in `.json`, and of empty bodies (app.py:449-460, 475-484). `ReportIntake.LoadIncidences` starts from the parsed records.
- The `Timestamp` and `Probabilidades` fields of the stored record are not modelled. They come from the clock and the classifier.
- The Slack message text and the `requests.post` call are not modelled: only whether the alert is attempted is.
- The Streamlit pages, login, statistics, display sorting and title casing are display concerns.
- ReportIntake.WithCategory: JSON values other than text are not modelled. Records map names to strings, so the only falsy category is the empty string.
- SecurityAlerts.Incident.ClassifyAndAlert: requires the three text fields, where present, to hold text. A number there makes `text.lower()` raise in the original.
- StreetBundling.GroupByStreet: the record dictionaries are values, so aliasing between the returned groups and the caller's dictionaries is not modelled.
- StreetBundling.BucketMembers: the bucketing functions take the key function as a parameter, which the application fixes to `StreetKey`.
