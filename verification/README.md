# Scripter core in Dafny

Scripter turns a recorded conversation into an interactive HTML script.
It sends the audio to a transcription service that labels each word with
its speaker and times. It groups consecutive same-speaker words into
phrases, asks a translation service for each phrase, and writes an ordered
list whose items play their stretch of audio on click and show the
translation on hover. This project models the decision-making core of
`main.py` as pure Dafny functions, with proofs of what they guarantee:

- `cache.dfy` (module `Cache`): the name of the file that caches a
  transcription, `get_cache_path` and its `".json"` suffix.
- `html.dfy` (module `Html`): the `tag` helper.
- `transcript.dfy` (module `Transcript`): the phrase segmentation of the
  `elaborate_script` loop, stated both as the loop computes it and by the
  indices of the speaker changes, with the two proved equal.
- `script.dfy` (module `Script`): the loop itself as a method, the per-phrase
  translation request, the choice `get_translation` makes between error and
  translation, and the `<li>`/`<ol>` text it writes.
- `params.dfy` (module `Params`): the default transcription parameters, the
  `--param k=v` override loop with its refusals, and the URL query string.
- `text.dfy` (module `Text`): the Python string built-ins these use.
- `wrappers.dfy` (module `Wrappers`): `Option` and `Result`.

Behaviour of `main.py` that the model keeps as written:

- Nothing is written after the loop of `elaborate_script` (main.py:212-230).
  A phrase is written only when the next word has another speaker. So the
  run of words after the last speaker change never reaches the script.
  `Script.ElaborateItems` keeps this behaviour. The omission is recorded as
  a defect under "## Findings", and `Script.ElaborateScript` adds the
  missing flush.
- The first phrase's click handler starts at the literal `0` (main.py:209),
  not at its first word's start time. `Transcript.Stamp.Origin` keeps this
  case apart.
- `"./a/b.wav"` and `"a/b.wav"` get different cache files, `_a_b.wav` and
  `a_b.wav`. Slashes are replaced before the leading dots are stripped, so
  the leading `./` becomes `._` and only the dot goes.
  `Cache.DotSlashPrefixDoesNotCollide` states this.
- Paths that differ only by a leading run of dots do collide
  (`Cache.LeadingDotsCollide`). So do paths that differ only by `/`
  against `_` (`Cache.SlashAndUnderscoreCollide`).

External services are parameters:

- The translation service is a function `string -> Reply`.
- Printing a float time is a function `real -> string`.
- The cache directory is a string argument.

## Model

| member | source | states |
|---|---|---|
| Cache.StripLeadingDots | main.py:80 | the result is the input minus a run of leading dots, and it does not itself start with a dot |
| Cache.Sanitise | main.py:80 | the cache file name has no '/', does not start with '.', and is the path with '/' turned into '_' and the leading dots removed |
| Cache.CachePath | main.py:79-81 | the path is the cache directory, one '/', then the sanitised name, with no further '/', so the file sits directly in the cache directory |
| Cache.SanitiseIdempotent | main.py:80 | sanitising an already sanitised name leaves it unchanged |
| Cache.LeadingDotsCollide | main.py:80 | prefixing a path with any number of dots does not change its cache file |
| Cache.SlashAndUnderscoreCollide | main.py:80 | two paths that differ only by '/' against '_' share a cache file |
| Cache.DotSlashPrefixDoesNotCollide | main.py:80 | "./a/b.wav" caches as "_a_b.wav", "a/b.wav" as "a_b.wav", and the two differ |
| Cache.JsonName | main.py:86 | the cache name of `audio + ".json"` is the sanitised audio name plus ".json", or "json" when the audio name sanitises to nothing |
| Cache.TranscriptionCachePath | main.py:79-86 | the transcription cache path is the cache directory, '/', the sanitised audio name and ".json"; when the audio path is only dots (or empty) the file is named "json" |
| Cache.EmptyNameOnlyDots | main.py:80 | a path sanitises to the empty name exactly when every character of it is a dot |
| Html.AttributeText | main.py:158-160 | the attribute text is empty exactly when there are no attributes; otherwise it starts with a space and ends with a closing quote (each attribute is ` k="v"`; `Html.AttributeTextAppend` gives the order) |
| Html.Tag | main.py:157-161 | a tag starts with '<', ends with '>', and is as long as the name twice, the attribute text, the content and the seven characters of `<`, `> `, ` </` and `>` (`Html.TagParts` places each piece) |
| Html.TagParts | main.py:157-161 | a tag's length, and the slices at which `<name`, the attribute text, "> ", exactly the content, and ` </name>` sit |
| Html.AttributeTextAppend | main.py:158-160 | the attribute text of two attribute lists in a row is their texts in a row, so attributes are written in insertion order |
| Html.AttributeTextThree | main.py:158-160 | three attributes are written one after another, each as ` k="v"` |
| Html.TagWithoutAttributes | main.py:157-161 | with the default empty attributes a tag is `<name> content </name>` |
| Html.TagWithThreeAttributes | main.py:157-161 | a tag with three attributes writes them in the order given between the name and "> " |
| Params.Defaults | main.py:329-336 | the default parameters name no key twice (`Params.DefaultFlags` gives the flags' values) |
| Params.Put | main.py:344 | `d[k] = v` adds `k` to the keys; an existing key keeps its position, and a new key goes at the end |
| Params.PutGet | main.py:344 | after `d[k] = v`, `k` maps to `v` and every other key maps as before |
| Params.PutKeepsKeysUnique | main.py:344 | `d[k] = v` never duplicates a key |
| Params.ParseOverride | main.py:339 | `[k, v] = param.split("=")` succeeds exactly when the parameter holds one '='; then `k + "=" + v` is the parameter and neither half holds '=' |
| Params.Refusal | main.py:339-343 | a parameter is refused exactly when it is malformed, or sets diarize or punctuate to a value whose lower case is not "true" |
| Params.ApplyOverrides | main.py:337-344 | the override loop completes exactly when every override is accepted |
| Params.OverridesKeepKeys | main.py:329-344 | a completed loop keeps the starting keys in their positions; after them come exactly the keys the overrides introduce, each once, in the order of their first mention (`Params.NewKeys`); no key is duplicated |
| Params.FirstRefusalReported | main.py:338-343 | the loop aborts with the error of the first refused override, whatever follows it |
| Params.LastOverrideWins | main.py:338-344 | after a completed loop, every key maps to the value of the last override that names it, or keeps its starting value |
| Params.LastSettingSource | main.py:338-344 | that final value is either the starting one or set by one of the overrides |
| Params.DefaultFlags | main.py:329-336 | the defaults set punctuate and diarize to "true" |
| Params.FlagStaysOn | main.py:340-344 | a flag that starts at "true" still lower-cases to "true" after a completed loop |
| Params.RequiredFlagsStayOn | main.py:329-344 | whatever overrides are given, a completed loop sends diarize and punctuate, both lower-casing to "true" |
| Params.RequestParams | main.py:329-344 | the request parameters exist exactly when every `--param` is accepted; they then hold the default keys in their order, followed by the new override keys in first-mention order, with no key twice |
| Params.QueryString | main.py:102 | no parameters give the empty query; when no `k=v` pair holds '&', splitting the query on '&' gives back the pairs in order |
| Params.ParsePair | main.py:339 | a `k=v` text with no '=' in `k` or `v` splits back into `(k, v)` |
| Params.QueryStringRoundTrip | main.py:102 | when no key or value holds '&' or '=', splitting the query string on '&', then each piece on '=', gives back the parameters in order |
| Text.NatToString | main.py:216 | `str(n)` is non-empty, all decimal digits, and starts with '0' exactly when `n` is 0 |
| Text.DecimalRoundTrip | main.py:216 | reading `str(n)` back as a decimal gives `n` |
| Text.NatToStringInjective | main.py:216 | distinct speaker numbers print differently |
| Text.Lower | main.py:340 | `lower()` keeps the length and lower-cases each ASCII capital in place |
| Text.ReplaceChar | main.py:80 | `replace` keeps the length and changes exactly the occurrences of the replaced character |
| Text.Split | main.py:339 | `split` gives one more piece than there are separators, and no piece holds the separator |
| Text.JoinSplit | main.py:339 | joining the pieces of a split with the separator gives back the text |
| Text.SplitJoin | main.py:102 | splitting a join of separator-free pieces gives back the pieces |
| Transcript.Segment | main.py:212-230 | the emitted phrases are one per speaker change, in order, the k-th being the run closed by the k-th change (`Transcript.PhraseAt`), stated against the independent description by change indices |
| Transcript.PhrasesAtChanges | main.py:212-230 | the k-th emitted phrase is the run ending at the k-th speaker change: the previous speaker, the run's words each followed by a space, the run's last end time, and start 0 or the run's first start time |
| Transcript.PhraseCount | main.py:212-230 | exactly one phrase is emitted per speaker change |
| Transcript.PhraseIsMaximalRun | main.py:206-230 | each phrase is a maximal run of one speaker's words, ending just before a change; its text, end time and start (0 for the first phrase) are those of the run |
| Transcript.AdjacentPhrasesDiffer | main.py:213-214 | neighbouring phrases have different speakers |
| Transcript.SingleSpeakerEmitsNothing | main.py:212-230 | a transcript with only one speaker emits no phrase |
| Transcript.PhrasesCoverAllButFinalRun | main.py:212-231 | the phrase texts in order spell exactly the words before the final run; that run is non-empty when there are words, has one speaker, and is never emitted |
| Transcript.SpokenAppend | main.py:229 | the text of two runs of words is their texts in order |
| Transcript.TwoSpeakerExample | main.py:206-231 | "Hi there" by speaker 0 then "Hello" by speaker 1 yields only the phrase "Hi there " from 0 to 1.0 |
| Transcript.SpokenLength | main.py:229 | every word adds at least one character, its trailing space |
| Transcript.FinalRunDropped | main.py:212-231 | as written: for every non-empty transcript the phrase texts are shorter than the text of all the words, so words are lost |
| Transcript.SegmentFlushed | main.py:212-231 | corrected: with the flush the phrase texts spell every word in order, with one phrase per speaker change plus one for the final run |
| Transcript.FlushedNeighboursDiffer | main.py:213-214 | corrected: with the flush, neighbouring phrases still belong to different speakers |
| Transcript.TwoSpeakerExampleFlushed | main.py:206-231 | corrected: the example yields "Hi there " by speaker 0 from 0 to 1.0, then "Hello " by speaker 1 from 1.2 to 1.6 |
| Script.ReadWords | main.py:205-231 | the loop emits the phrases of the segmentation in order; it asks the translator once per phrase with exactly that phrase's text; it titles each item with the reply; it leaves the last speaker's run open with its text, start and end |
| Script.ElaborateItems | main.py:205-232 | as written: the list holds the items of the phrases closed by a speaker change, in order, inside `<ol id="transcript">`; the final run is not among them |
| Script.ElaborateScript | main.py:205-232 | corrected: the list also holds, last, the item of the final run, so its phrases are those of `Transcript.SegmentFlushed` |
| Script.RenderList | main.py:225-232 | the list is the `<ol id="transcript">` tag around each item's `<li>` line and newline, in item order |
| Script.ItemTitles | main.py:137-143 | an item's hover title is the reply's error message when there is one, and the translated text otherwise |
| Script.AdjacentClassesDiffer | main.py:216 | neighbouring list items carry different speaker CSS classes |
| Script.GetTranslation | main.py:137-143 | the title is the reply's error message when the reply has one, and its translated text otherwise (`Script.ItemTitles` applies this per item) |
| Script.SpeakerClass | main.py:216 | the class is "speaker" followed by decimal digits that read back as the speaker number, so distinct speakers get distinct classes |
| Script.PlayCall | main.py:217 | the handler text starts with "play(" and ends with ')'; for the first phrase it starts with "play(0," |
| Script.ItemLine | main.py:215-225 | a list line is `<li class="speakerN" onClick="play(start,end)" title="...">` then the text, ` </li>` and a newline |
| Script.LiLine | main.py:225 | the `<li>` tag of three attributes written out as one string |

## Findings

| source | as written | input that shows it | evidently intended | confidence | as-written member | corrected member |
|---|---|---|---|---|---|---|
| main.py:212-232 | a phrase is written only when the next word has another speaker, and nothing is written after the loop, so the last speaker's run never reaches the script | words "Hi" and "there" by speaker 0, then "Hello" by speaker 1: the list holds only "Hi there " (`Transcript.TwoSpeakerExample`) | after the loop, the run still open is written as the last item, so every word appears | not executed; high, since the final utterance of every conversation is lost | Transcript.FinalRunDropped | Script.ElaborateScript |

## Left out

- HTTP calls to the transcription and translation services are left out. So are reading and writing cache files and the check whether a cache file exists. The translator is a function parameter, and the transcription arrives as the word list.
- The choice between a cache hit and a fresh request (main.py:88-101) is left out: it depends on the `--ignore-cache` flag and on whether the cache file exists.
- Walking the service JSON down to the word list and the transcript text (main.py:94, main.py:205) is left out; a missing member raises there.
- A translation reply holding neither `error` nor `translatedText` raises `KeyError` in the source and cannot be expressed by `Script.Reply`.
- Script.ElaborateItems: Python's float `repr` of start and end times is the parameter `showTime`, so the exact digits of `play(...)` are not modelled.
- Speaker labels are non-negative integers, as the service returns them. The source's `-1` sentinel is therefore never a speaker.
- The HTML header (style and script), the dedent by `re.sub` and the footer (main.py:166, main.py:168-204, main.py:234) are constant text and are left out.
- The `<audio>` element (main.py:167) is left out. It embeds the audio path as `src` and the text after the path's last '.' as the `audio/` type.
- Text.Lower: lower-cases ASCII letters only, not the rest of Unicode.
- Script.RenderList: the source appends each `<li>` line inside the segmentation loop. The model builds the lines in a second loop over the items. It produces the same string, as the two methods' contracts together state.
- Argument parsing, logging with colours, `abort` and the exit status (main.py:244-311) are left out. A refused `--param` is returned as `Params.ParamError`, not by exiting.
- Writing the HTML to a file or to the standard output (main.py:358-362) is left out.
