# DialogBind in Dafny

DialogBind is a small Ruby library that shows message boxes through whatever
dialog tool the machine has. It supports xmessage and zenity, plus, in the
newer lib/dialogbind.rb, AppleScript on macOS and `MessageBoxA` on Windows.
The library picks a backend when it is loaded. Then every call (`guiputs`,
`guiyesno`, `guierror`, `guiprogress`, `guilicense`, `guiselect`) turns into
one or more command lines for `system` or backticks, or a native call, and the
answer is decoded. The Ruby default arguments (the title `DialogBind`, the
progress text `Please wait...` and the selection prompt) are default
parameter values of the dialog functions here.

This project models that core and proves properties of the model:

- `text.dfy` (`Text`): the Ruby string operations the library relies on. These
  are one-character `gsub`, `sub`, `split` (which drops trailing empty fields),
  `join`, `Integer#to_s` and ASCII `downcase`.
- `ordered_hash.dfy` (`OrderedHash`): a Ruby `Hash` as a sequence of pairs in
  insertion order. `hash[k] = v` overwrites in place or appends.
- `effects.dfy` (`Effects`): what the outside world answers. This covers how
  `system` ends (`true`, `false` or `nil`), Ruby truthiness, and the requests
  a call makes.
- `zenity.dfy` (`Zenity`): the `zenity` argument encoder, as the loop it is.
- `xmessage.dfy` (`Xmessage`): the `xmessage` command builder, as the loop it
  is, with a parser that reads the command back.
- `macdialog.dfy` (`MacDialog`): the AppleScript command of `macdialog`, and
  the global `$dialogbind_macos_script_cmd` as a field the method updates;
  also a parser that reads the command back.
- `buttons_hash.dfy` (`ButtonsHash`): `entry2buttonshash`.
- `selection.dfy` (`Selection`): backend selection at load time, in both
  versions.
- `facade.dfy` (`Facade`) and `facade_legacy.dfy` (`LegacyFacade`): the dialog
  functions of the newer and the older version.

A dialog call is modelled as a `Call`: the requests it makes, in order, and
whether it returns a value or raises. Every answer from outside is a field of
a `World` value. This covers:

- how `system` ends;
- what backticks print;
- the `MessageBoxA` code;
- whether the license file exists and what it contains;
- the contents of `/tmp/zenity.sock`;
- the program name.

The older dialogbind.rb has the same `zenity`, `xmessage` and
`entry2buttonshash` code (dialogbind.rb:8-47 and 124-132). The models in
`Zenity`, `Xmessage` and `ButtonsHash` stand for both copies.

## Model

| member | source | states |
|---|---|---|
| Effects.SystemValue | lib/dialogbind.rb:33 | `system` answers a Boolean exactly when the command ran, and `true` exactly when it succeeded |
| Text.Delete | lib/dialogbind.rb:25 | `gsub(c, '')` leaves no `c` and never lengthens the text |
| Text.Replace | lib/dialogbind.rb:29 | `gsub(a, b)` for single characters keeps the length and replaces exactly the positions holding `a` |
| Text.NatToStringRoundTrip | lib/dialogbind.rb:65 | `Integer#to_s` of a code reads back as the same number |
| Text.RemoveFirstSplits | lib/dialogbind.rb:18 | `sub('%', '')` removes exactly the first `%`, keeping what lies before and after it |
| Text.SplitSecondField | lib/dialogbind.rb:151 | `split(':')[1]` is `nil` exactly when only colons follow the first one; otherwise it is the text between the first and the second colon |
| Text.DropTrailingEmptyCons | lib/dialogbind.rb:274 | `split` drops the trailing empty fields and only those |
| Text.Lower | lib/dialogbind.rb:151 | `downcase` keeps the length and lowers every character on its own |
| Text.Split | lib/dialogbind.rb:274 | `split(c)`: the fields between separators, without the trailing empty ones (stated by DropTrailingEmptyCons and SplitSecondField) |
| Text.JoinSnoc | lib/dialogbind.rb:110 | `join` of a list with one more element adds a separator and that element |
| OrderedHash.Lookup | lib/dialogbind.rb:20 | `hash[k]` is `nil` exactly when no pair has the key `k` |
| OrderedHash.Store | lib/dialogbind.rb:235 | `hash[k] = v` overwrites the pair of an existing key in place and appends a new key (see StoreKeepsHash, StoreOther, StoreKeys) |
| OrderedHash.StoreKeepsHash | lib/dialogbind.rb:235 | `hash[k] = v` keeps the keys distinct and in order, makes `k` look up `v`, and grows the hash only for a new key |
| OrderedHash.StoreOther | lib/dialogbind.rb:235 | storing under one key leaves the lookup of every other key as it was |
| OrderedHash.StoreKeys | lib/dialogbind.rb:235 | a new key is appended to the key order; an existing key keeps its place |
| OrderedHash.LookupAt | lib/dialogbind.rb:20 | in a hash, the lookup of a stored key yields its own value |
| Zenity.Command | lib/dialogbind.rb:14-34 | the command `zenity` builds from an argument hash; BuildCommand computes it and the Segment lemmas state its parts |
| Zenity.BuildCommand | lib/dialogbind.rb:14-34 | the key loop builds `zenity ` followed by one segment per key, in insertion order, each followed by a space |
| Zenity.AppendSegment | lib/dialogbind.rb:17-30 | one pass of the key loop appends exactly the key's segment: the value of the key without its `%`, written as a bare flag, tokens or `--key='v'` |
| Zenity.AppendTokens | lib/dialogbind.rb:23-27 | the inner loop appends the token of every non-nil element of an array, in order |
| Zenity.EffectiveKey | lib/dialogbind.rb:17-19 | a key ending in `%` loses one character; any other key is used unchanged |
| Zenity.EffectiveKeyDropsFirstPercent | lib/dialogbind.rb:17-19 | the character a `%` key loses is its first `%` (which may lie before the last character), and what comes before and after it is kept |
| Zenity.ArrayTokensRoundTrip | lib/dialogbind.rb:23-27 | the tokens of an array read back exactly as its non-nil elements, in order, each without `'` |
| Zenity.TextsHaveNoQuote | lib/dialogbind.rb:25 | no array token text holds a `'` |
| Zenity.ScalarQuoting | lib/dialogbind.rb:29 | a scalar flag is `--key='v'`, where `v` has the scalar's length, no `'`, and every other character kept |
| Zenity.SegmentsInOrder | lib/dialogbind.rb:16-32 | the segment of the i-th key comes right after the segments of the keys before it |
| Zenity.PlainKeySegment | lib/dialogbind.rb:20-30 | a key not ending in `%` is written from its own value: a bare flag for `nil`, tokens for an array, `--key='v'` otherwise |
| Zenity.PercentKeySegment | lib/dialogbind.rb:17-21 | a `%` key is written from the value of the shortened key, and as a bare flag when the hash lacks that key |
| Zenity.PercentKeyRepeatsPlainKey | lib/dialogbind.rb:17-30 | the entry `'k%' => w` is written exactly like the entry for `k` |
| Xmessage.Command | lib/dialogbind.rb:56-73 | the command `xmessage` builds; CommandRoundTrip reads it back |
| Xmessage.BuildCommand | lib/dialogbind.rb:56-73 | the `first`-flag loop and what follows it build the command, which starts with `xmessage -center -buttons "` |
| Xmessage.Items | lib/dialogbind.rb:65 | one item per button, in order, `label:code` with the label's `"` removed |
| Xmessage.ButtonListIsJoin | lib/dialogbind.rb:59-66 | the loop writes the button items joined by commas |
| Xmessage.ButtonListCommas | lib/dialogbind.rb:59-66 | `n` buttons give `n - 1` separating commas plus the commas in the labels |
| Xmessage.NoLabelCommas | lib/dialogbind.rb:65 | labels without commas contribute none |
| Xmessage.ButtonListHasNoQuote | lib/dialogbind.rb:65 | the button list holds no `"`, so it cannot close the `-buttons` quoting early |
| Xmessage.EmptyButtons | lib/dialogbind.rb:57-67 | an empty button hash gives `-buttons ""` |
| Xmessage.SanitizeClean | lib/dialogbind.rb:71 | the body holds neither `"` nor `!`, is no longer than the text, and sanitising again changes nothing |
| Xmessage.CommandRoundTrip | lib/dialogbind.rb:56-73 | the command reads back as the button list, the `-file` flag exactly when it is set, and the sanitised body |
| MacDialog.RunMacDialog | lib/dialogbind.rb:76-93 | the stored command; a dry run makes no request and returns `false`; otherwise one `system` call with output discarded, whose answer is returned |
| MacDialog.ScriptCommand.constructor | lib/dialogbind.rb:10 | the stored script command starts empty |
| MacDialog.ScriptCommand.MacDialog | lib/dialogbind.rb:76-93 | building step by step stores the command in the global and makes the requests of `RunMacDialog` |
| MacDialog.SanitizeMacIsGsubs | lib/dialogbind.rb:77 | removing `!`, `'`, `"` and `$` in one pass equals the four `gsub` calls |
| MacDialog.SanitizeMacClean | lib/dialogbind.rb:77 | the text holds none of the four characters, is no longer than before, and a text without them is unchanged |
| MacDialog.Escape | lib/dialogbind.rb:80 | `inspect` never shortens a label |
| MacDialog.Quoted | lib/dialogbind.rb:80 | each label is quoted on its own, in order |
| MacDialog.EscapeRoundTrip | lib/dialogbind.rb:80 | the escaping of `inspect` reads back as the label |
| MacDialog.EscapePlain | lib/dialogbind.rb:80 | a label without `"` or `\` is written as it is |
| MacDialog.EscapeKeepsOut | lib/dialogbind.rb:80 | escaping brings in no character other than a backslash |
| MacDialog.JoinKeepsOut | lib/dialogbind.rb:80 | joining brings in only the separator's characters |
| MacDialog.BracesAround | lib/dialogbind.rb:80 | the outer brackets become braces when the inside has none |
| MacDialog.QuotedPlain | lib/dialogbind.rb:80 | plain labels are quoted without escapes and bring in no brackets |
| MacDialog.PlainButtons | lib/dialogbind.rb:80 | plain labels give the clause `{"a", "b"}` |
| MacDialog.BracesEnd | lib/dialogbind.rb:80 | the buttons clause ends with `}` |
| MacDialog.IconIffError | lib/dialogbind.rb:84-87 | the command ends with ` with icon caution'` exactly when the error flag is set |
| MacDialog.ClauseEnd | lib/dialogbind.rb:79-83 | the buttons clause ends with `}` and the title clause with `"` |
| MacDialog.ParseClauseRoundTrip | lib/dialogbind.rb:79-83 | the clause reads back as buttons, or as the program name for `notification` |
| MacDialog.ParseEndRoundTrip | lib/dialogbind.rb:79-88 | what follows the text reads back as the clause and the error flag |
| MacDialog.MacCommand | lib/dialogbind.rb:76-88 | the AppleScript command of `macdialog`; MacCommandRoundTrip reads it back and IconIffError states its end |
| MacDialog.MacCommandRoundTrip | lib/dialogbind.rb:76-88 | the command reads back as the sanitised text, the clause for its type, and the error flag |
| ButtonsHash.EntryToButtonsHash | lib/dialogbind.rb:231-239 | the loop builds a hash mapping each entry to its index, with distinct keys |
| ButtonsHash.EntriesHashKeys | lib/dialogbind.rb:231-239 | the keys are the entries without repeats, in order of first appearance |
| ButtonsHash.EntriesHashLookup | lib/dialogbind.rb:231-239 | every entry maps to the index of its last occurrence, and nothing else is a key |
| ButtonsHash.DistinctEntries | lib/dialogbind.rb:231-239 | distinct entries give one button per entry, coded by position |
| ButtonsHash.Dedup | lib/dialogbind.rb:235 | holds exactly the entries |
| ButtonsHash.LastIndex | lib/dialogbind.rb:235 | the last position where an entry occurs |
| Selection.BackendOf | lib/dialogbind.rb:119-130 | the names `xmessage`, `zenity`, `macos` and `win32`, and only they, pick their own branch; an unrecognised name keeps the name |
| Selection.Select | lib/dialogbind.rb:95-111 | the load-time selection; it loads only a supported backend (its loading and error message are stated by LoadErrorMessage and NoOverrideLoads) |
| Selection.LoadBackend | lib/dialogbind.rb:95-111 | the load-time code yields the selected backend or the load error |
| Selection.DetectionPriority | lib/dialogbind.rb:98-104 | zenity wins, then Windows, then macOS, each only when every earlier probe failed; otherwise xmessage |
| Selection.OverrideWins | lib/dialogbind.rb:106-108 | a set `DIALOGBIND_BACKEND` decides alone |
| Selection.NoOverrideLoads | lib/dialogbind.rb:95-111 | without an override the load succeeds with the detected backend |
| Selection.AvailableList | lib/dialogbind.rb:95 | the supported list is spelled `xmessage, zenity, macos, win32` |
| Selection.LoadErrorMessage | lib/dialogbind.rb:109-111 | the load fails exactly for an unsupported name, with the message naming it and listing the supported ones |
| Selection.MessageShape | lib/dialogbind.rb:110 | the message starts with the backend's name and ends with the joined list |
| Selection.BackendNames | lib/dialogbind.rb:95 | the dialog functions recognise a name exactly when it is in the supported list |
| Selection.LegacyAvailableList | dialogbind.rb:49 | the older list is spelled `xmessage, zenity` |
| Selection.LegacySelect | dialogbind.rb:49-59 | the older load-time selection; it loads only `xmessage` or `zenity` (see LegacySelection) |
| Selection.LegacyLoadBackend | dialogbind.rb:49-59 | the older load-time code yields its selection or its load error |
| Selection.LegacySelection | dialogbind.rb:49-59 | the older version loads only xmessage or zenity, agrees with the newer one on those, and rejects `macos` and `win32` |
| Facade.GuiPuts | lib/dialogbind.rb:118-133 | `guiputs` per backend; stated by OneRequest, Win32Rules and UnsupportedBackend |
| Facade.GuiYesNo | lib/dialogbind.rb:140-161 | `guiyesno` per backend; stated by OneRequest, Win32Rules, MacQuestions and YesNoDecoding |
| Facade.GuiError | lib/dialogbind.rb:168-181 | `guierror` per backend; stated by ErrorBoxes, OneRequest and Win32Rules |
| Facade.GuiProgress | lib/dialogbind.rb:189-201 | `guiprogress` per backend; stated by OneRequest, Win32Rules and UnsupportedBackend |
| Facade.GuiLicense | lib/dialogbind.rb:208-229 | `guilicense` per backend; stated by LicenseFileMissing, LicenseXmessage, MacLicenseSteps and Win32Rules |
| Facade.GuiSelect | lib/dialogbind.rb:247-280 | `guiselect` per backend; stated by SelectLimit, SelectXmessage, SelectZenity, MacQuestions, SelectDecoding and Win32Rules |
| Facade.UnsupportedBackend | lib/dialogbind.rb:118-280 | an unrecognised backend: `guiputs` prints `title: text` and answers `true`; the others raise before any request |
| Facade.OneRequest | lib/dialogbind.rb:118-201 | on a recognised backend `guiputs`, `guiyesno` and `guierror` make one request, and `guiputs` and `guierror` do not raise; off win32 `guiprogress` also makes one request and does not raise |
| Facade.Win32Rules | lib/dialogbind.rb:118-280 | Windows rules: questions and licenses use flags 4 and mean yes exactly for code 6; `guierror` answers the code; `guiprogress` and `guiselect` raise before any request |
| Facade.ErrorBoxes | lib/dialogbind.rb:168-173 | under xmessage the error box is one command that reads back as the single `OK:0` button and the text behind `ERROR. `; under zenity it is the `--error` dialog with the title and text |
| Facade.LicenseFileMissing | lib/dialogbind.rb:209-212 | a missing file makes only the `guierror` request and answers `false`, unless `guierror` raises |
| Facade.LicenseXmessage | lib/dialogbind.rb:213-214 | the xmessage license shows the file with `-file` and the Accept/Decline buttons; the answer is the exit status |
| Facade.MacLicenseSteps | lib/dialogbind.rb:217-220 | the macOS license: notice dialog, `open -e`, then the requests and answer of `guiyesno` |
| Facade.EscapeQuotesChar | lib/dialogbind.rb:219 | `gsub('"', '\\"')` turns a `"` into `\"` and keeps any other character |
| Facade.EscapeQuotesConcat | lib/dialogbind.rb:219 | the escaping works character by character: escaping a concatenation concatenates the escaped parts |
| Facade.EscapeQuotesCounts | lib/dialogbind.rb:219 | the file name gains one backslash per `"`, a name without `"` is kept, and removing all backslashes from the result gives the name without its backslashes |
| Facade.YesNoDecoding | lib/dialogbind.rb:147-153 | the macOS answer: `false` without a colon, an exception without a second field, otherwise yes in any case |
| Facade.SelectDecoding | lib/dialogbind.rb:270-274 | the macOS selection: `nil` without a colon or a second field, otherwise the second field |
| Facade.MacQuestions | lib/dialogbind.rb:146-147 | `guiyesno` and `guiselect` on macOS capture the output of the stored dry-run command |
| Facade.SelectLimit | lib/dialogbind.rb:248-250 | more than two entries raise before any request |
| Facade.SelectXmessage | lib/dialogbind.rb:251-256 | xmessage success picks the first entry; any other end picks the second, or `nil` |
| Facade.SelectButtons | lib/dialogbind.rb:251 | distinct entries give buttons `e0:0,e1:1`; equal ones collapse into `e0:1` |
| Facade.SelectZenity | lib/dialogbind.rb:257-267 | zenity answers the side file without newlines on success, `nil` otherwise |
| Facade.SelectRows | lib/dialogbind.rb:258-263 | the radiolist rows read back as `0`, the first entry and, with two entries, `1` and the second |
| Facade.SelectQuirks | lib/dialogbind.rb:263 | `'column%'` is written as a second `--column='#'`, and the redirection as a bare flag |
| Facade.SelectArgsKeys | lib/dialogbind.rb:263 | the radiolist hash has distinct keys |
| LegacyFacade.LegacyPuts | dialogbind.rb:61-71 | the older `guiputs`; stated by SameOnKnownBackends and UnknownBackend |
| LegacyFacade.LegacyYesNo | dialogbind.rb:73-82 | the older `guiyesno`; stated by SameOnKnownBackends and UnknownBackend |
| LegacyFacade.LegacyError | dialogbind.rb:84-94 | the older `guierror`; stated by SameOnKnownBackends, UnknownBackend and VersionsDiffer |
| LegacyFacade.LegacyProgress | dialogbind.rb:96-106 | the older `guiprogress`; stated by SameOnKnownBackends and UnknownBackend |
| LegacyFacade.LegacyLicense | dialogbind.rb:108-122 | the older `guilicense`; stated by SameLicense and UnknownBackend |
| LegacyFacade.LegacySelect | dialogbind.rb:134-157 | the older `guiselect`; stated by SameSelect and UnknownBackend |
| LegacyFacade.SameOnKnownBackends | dialogbind.rb:61-106 | on xmessage and zenity the older `guiputs`, `guiyesno`, `guierror` and `guiprogress` equal the newer ones |
| LegacyFacade.SameLicense | dialogbind.rb:108-122 | on xmessage and zenity the older `guilicense` equals the newer one |
| LegacyFacade.SameSelect | dialogbind.rb:134-157 | on xmessage and zenity the older `guiselect` equals the newer one |
| LegacyFacade.UnknownBackend | dialogbind.rb:61-157 | any other backend: print, raise, or `nil` from `guiselect`; a missing license file raises the error-box message |
| LegacyFacade.VersionsDiffer | dialogbind.rb:84-94 | on macOS and Windows the newer functions show a dialog where the older print or raise; the two `guierror`s raise different messages |

## Left out

- Processes, backticks, `MessageBoxA` through Fiddle, `File.exists?`,
  `File.read`, `ENV` and `uname` are not run. Their answers are fields of
  `World` and `Probe`, and each call records the requests it would make.
- One `World` answers every `system` call of a dialog call with the same
  status.
- Effects.SystemValue: `system` distinguishes only success, failure and not
  started; exit codes are not modelled.
- MacDialog.Escape: `Array#inspect` is modelled only for `"` and `\`. Its
  other escapes (control characters, `#{`, non-ASCII) are not modelled.
- Text.Lower: ASCII `downcase` only. Unicode case mapping is not modelled.
- Facade.YesNoDecoding: the `output == nil` test is left out because
  backticks never give `nil`. A missing second field is modelled as the
  `NoMethodError` of `nil.downcase`. The exact message text depends on the
  Ruby version, so it is a constant here.
- Button codes and scalar values are Ruby Strings or Integers. Other objects
  and their `to_s` are not modelled.
- The `Call` of a dialog does not include the global script command it
  leaves behind. `MacDialog.ScriptCommand` models that global as a field.
- `win32_msgbox` (lib/dialogbind.rb:51-53) is modelled only as the `MsgBox`
  request it makes.
- The example scripts alarmclock.rb and bulkprepend.rb are not part of this model.
- Reassigning `$dialogbind_dialog_backend` after loading is modelled by
  giving each dialog function its backend as a parameter.
