# Personal assistant core, modelled in Dafny

This project models the three managers of a console personal assistant and proves properties of them.

- **File organizer** (`sorter_manager.py`):
  - The transliteration table `TRANS`, built from 37 Cyrillic letters in both cases.
  - The extension table `KNOWN_EXTENSIONS`.
  - `normalize` and `get_extension`.
  - `handle_file`, which creates a subfolder named after the extension and moves the file into it.
  - The walk of `organize_folder` over the entries of a valid folder.
- **Notes list** (`notes_manager.py`):
  - Adding, editing, searching and deleting notes, which are objects changed in place in a list.
  - Grouping notes by tag, with the tags sorted.
  - The `', '` encoding of the tag column.
- **Contact book** (`contact_manager.py`):
  - The phone and e-mail validators.
  - The duplicate rule of `add_contact`, which compares the sets of characters of two phones.
  - First-match search, field-by-field edit and delete by identity.
  - The next birthday, the age, and the filter of upcoming birthdays.

## Modules

| module | file | content |
|---|---|---|
| `Wrappers` | `wrappers.dfy` | `Option` (Python's `None`) and `Result` (a value, or the exception raised) |
| `Text` | `text.dfy` | `str` operations: `lower`/`upper`, `strip`, `in`, `find`, `split`/`join`, and the order of `<` on `str` |
| `Lists` | `lists.dfy` | `list.index` and `list.remove` on lists of objects |
| `Sorter` | `sorter.dfy` | The two literal tables, `normalize`, `get_extension` and the subfolder rule |
| `FileTree` | `filetree.dfy` | A filesystem as a map from path to file or directory; the `Disk` class changed by `mkdir` and move |
| `Organizer` | `organizer.dfy` | `handle_file` and `organize_folder`, both as specification functions and as `FolderOrganizer` methods |
| `Notes` | `notes.dfy` | `Note` and `NotesManager` |
| `Calendar` | `calendar.dfy` | `datetime.date`: validity, `replace`, comparison and day ordinals |
| `Pattern` | `pattern.dfy` | The two regular expressions, each as a language predicate |
| `Contacts` | `contacts.dfy` | `Contact` and `ContactManager` |

## How the source is modelled

- **Prompts:** what the source reads with `input()` becomes a method parameter.
- **Output:** what it prints becomes a return value, or is dropped.
- **Filesystem:** a map `Tree` from a path (a sequence of components) to a regular file or a directory. The empty path is the root.
- **Folder listing:** `iterdir` becomes a listing parameter, in any order.
- **Pathlib quirks:** joining a normalized name `""` or `"."` denotes the folder itself, and `".."` its parent. Those paths exist, so they take the collision branch (`Organizer.Occupied`).
- **The collision branch** (sorter_manager.py:50-51): it reads `.stem` on a `str`, so it always raises `AttributeError`.
- **`mkdir` over a regular file** raises `FileExistsError`, which is `FsError.FileExists` here.
- **`handle_file`** moves the file to `folder/<EXT>/<normalized name>`. `<EXT>` is the upper-cased extension itself, not the category key, or `MY_OTHER`.
- **Regular expressions:**
  - Each pattern is a chain of predicates, one per stage of the pattern, on the text still to be matched.
  - `\d` is an ASCII digit.
  - `\s` is the set of characters `str.isspace()` accepts.
  - The e-mail pattern is used with `re.match` and ends in `$`, so one trailing `"\n"` is accepted.
- **Dates:**
  - Dates are proleptic Gregorian `(year, month, day)` values with years 1 to 9999, as in `datetime.date`.
  - `date + timedelta(days)` is compared through day ordinals (`Calendar.Ordinal`).
  - Its `OverflowError` is modelled: more than 999999999 days, or a result outside `date.min..date.max`.
- **Upcoming-window comparison:** the chained comparison `today < next <= today + timedelta(days)` short-circuits. So the sum, and its overflow, is only reached for a birthday still ahead.
- **Phone comment:** the comment at contact_manager.py:75 lists `(050)123-45-67` as a supported format, but the pattern rejects it, because `\d{1,3}?` is non-greedy and not optional. `Pattern.PhoneRejectsParenExample` proves the rejection. The model follows the pattern.

## Model

| member | source | states |
|---|---|---|
| Sorter.LiteralFacts | sorter_manager.py:12-14 | Both literals have 37 entries. The letters are lower-case Cyrillic, distinct in both cases, and each replacement is at most three ASCII letters |
| Sorter.TableValues | sorter_manager.py:18-20 | After `k` rounds of the loop, letter `i` maps to replacement `i` and its upper-case form to the upper-cased replacement |
| Sorter.TableKeys | sorter_manager.py:18-20 | The table has no keys but the letters seen so far and their upper-case forms |
| Sorter.TableSize | sorter_manager.py:18-20 | Each round adds two new keys, so `k` rounds give `2k` keys |
| Sorter.TransSize | sorter_manager.py:16-20 | `TRANS` has 74 keys |
| Sorter.TransPairs | sorter_manager.py:12-20 | The pairing is position-wise in both cases: `TRANS[c_i] == t_i` and `TRANS[upper(c_i)] == upper(t_i)` |
| Sorter.TransKeys | sorter_manager.py:16-20 | Every key is a Cyrillic letter and every value at most three ASCII letters |
| Sorter.TransExamples | sorter_manager.py:12-14 | `я`→`u`, `є`→`ja`, `і`→`je`, `ї`→`ji`, `ґ`→`g`, `ъ` and `Ь` → `""`, `Щ`→`SCH` |
| Sorter.Normalize | sorter_manager.py:31-33 | The output uses only `[A-Za-z0-9._]`; the empty name stays empty |
| Sorter.NormalizeChar | sorter_manager.py:32 | A table letter becomes its replacement. An ASCII letter, digit or `.` stays. Any other character, `_` included, becomes one `_`. At most three characters come out |
| Sorter.NormalizeConcat | sorter_manager.py:32 | `normalize(a + b) == normalize(a) + normalize(b)` |
| Sorter.NormalizeLength | sorter_manager.py:32 | `len(normalize(s)) <= 3 * len(s)` |
| Sorter.NormalizeIdempotent | sorter_manager.py:31-33 | `normalize(normalize(s)) == normalize(s)` |
| Sorter.LastDot | sorter_manager.py:36 | The position of the last `.`, or none when there is no `.` |
| Sorter.ExtensionAfterLastDot | sorter_manager.py:35-36 | With its last dot neither first nor last, the extension is the upper-cased text after that dot and holds no dot |
| Sorter.ExtensionEmpty | sorter_manager.py:35-36 | The extension is `""` exactly when there is no dot, the name ends with a dot, or its only dot is the first character |
| Sorter.AllExtensions | sorter_manager.py:42 | The flattened set holds exactly the members of the table's sets |
| Sorter.ListedCovers | sorter_manager.py:22-28 | Each of the 21 listed extensions is in the flattened set |
| Sorter.ListedExact | sorter_manager.py:22-28 | The flattened set holds nothing else |
| Sorter.CategoryKeys | sorter_manager.py:22-28 | The table has exactly the five category keys |
| Sorter.ExtensionsDisjoint | sorter_manager.py:22-28 | No extension is in two categories |
| Sorter.ExtensionSizes | sorter_manager.py:23-27 | The categories have 4, 4, 6, 4 and 3 extensions |
| Sorter.ListedSize | sorter_manager.py:22-28 | The union has 21 members |
| Sorter.ListedUnion | sorter_manager.py:22-28 | The flat set is the union of the five sets |
| Sorter.ListedNames | sorter_manager.py:23-27 | Each extension has at least two characters, all upper-case letters or digits |
| Sorter.CategoryNames | sorter_manager.py:22-27 | Each category key has a lower-case letter in second position |
| Sorter.SubfolderRule | sorter_manager.py:39-45 | A listed extension names the subfolder. Any other extension, the empty one included, gives `MY_OTHER` |
| Sorter.SubfolderNotCategory | sorter_manager.py:43 | A subfolder name is never a category key such as `Images` |
| Sorter.SubfolderCaseExample | sorter_manager.py:39-43 | `photo.jpg` goes to `JPG` |
| Sorter.SubfolderLastSuffixExample | sorter_manager.py:39-43 | `backup.tar.Gz` goes to `GZ` |
| Sorter.SubfolderOtherExamples | sorter_manager.py:42-45 | `README`, `.bashrc` and `song.mp3.` go to `MY_OTHER` |
| FileTree.WithDir | sorter_manager.py:47 | Creating a missing directory adds exactly that path, as a directory |
| FileTree.Moved | sorter_manager.py:53 | A move takes the source away, puts its node at the destination and changes no other path |
| FileTree.WithDirWellFormed | sorter_manager.py:47 | Creating a directory inside a directory keeps every path's parent a directory |
| FileTree.MovedWellFormed | sorter_manager.py:53 | Moving a regular file into a directory keeps the tree well formed |
| FileTree.Disk.MakeDir | sorter_manager.py:47 | The disk's new tree is the old one with the directory added |
| FileTree.Disk.Rename | sorter_manager.py:53 | The disk's new tree is the old one with the file moved |
| Organizer.PlaceMoves | sorter_manager.py:47-53 | A placement without an exception moves the file, content unchanged, to `target/<subfolder>/<normalized name>`. The source is gone, and nothing but the subfolder and the destination changes |
| Organizer.PlaceRaises | sorter_manager.py:47-53 | A regular file at the subfolder path raises `FileExists`, with the tree kept. An occupied destination raises `AttributeError` after the subfolder is made. Either way the file stays and nothing is overwritten |
| Organizer.PlaceReusesFolder | sorter_manager.py:47 | An existing subfolder is reused: no `FileExists`, and no existing entry but the file changes |
| Organizer.PlaceWellFormed | sorter_manager.py:47-53 | Placement keeps the tree well formed |
| Organizer.PlaceFrame | sorter_manager.py:47-53 | No existing entry but the file changes. What is new or changed is the subfolder, as a directory, or the destination |
| Organizer.PlaceKeepsTarget | sorter_manager.py:43-47 | The target folder stays a directory |
| Organizer.WalkConcat | sorter_manager.py:69-71 | Walking `a + b` is walking `a` and then `b`, unless an exception ends it inside `a` |
| Organizer.WalkKeeps | sorter_manager.py:69-71 | Subdirectories, their contents and everything outside the folder are untouched |
| Organizer.WalkNoNewFiles | sorter_manager.py:69-71 | No regular file appears directly in the folder, and none left there changes |
| Organizer.WalkEmpties | sorter_manager.py:69-71 | A walk without an exception leaves no regular file under any name it went through |
| Organizer.WalkDestinations | sorter_manager.py:69-71 | Each regular file the walk took away sits unchanged at its destination |
| Organizer.WalkWellFormed | sorter_manager.py:69-71 | The walk keeps the tree well formed |
| Organizer.WalkSorted | sorter_manager.py:69-71 | With a full listing and no exception, the folder ends with no regular file directly inside it, and every one of its files is at its destination |
| Organizer.FillTable | sorter_manager.py:16-20 | The loop builds exactly the table of both-case pairs |
| Organizer.FolderOrganizer.constructor | sorter_manager.py:9-28 | The object's tables are `TRANS` and `KNOWN_EXTENSIONS`, and the folder path is the argument |
| Organizer.FolderOrganizer.Normalize | sorter_manager.py:31-33 | Through the object's table it is `normalize` |
| Organizer.FolderOrganizer.HandleFile | sorter_manager.py:38-53 | The new disk and the exception raised, if any, are those of `Place` |
| Organizer.FolderOrganizer.OrganizeFolder | sorter_manager.py:55-71 | `folder_path` is set. A missing folder or a non-directory changes nothing. Otherwise the disk and the outcome are those of `Walk` |
| Organizer.FolderOrganizer.WalkEntries | sorter_manager.py:69-71 | The loop ends with the tree and the first exception that `Walk` defines |
| Text.Strip | notes_manager.py:73 | The result is a contiguous piece of the input with only whitespace around it, and neither of its ends is whitespace |
| Text.StripIdempotent | notes_manager.py:73 | `strip(strip(s)) == strip(s)` |
| Text.SplitCount | notes_manager.py:71 | `split(',')` gives one piece more than there are commas |
| Text.SplitJoin | notes_manager.py:35-44 | `split(', ')` undoes `', '.join` of a non-empty list whose pieces have no `', '` |
| Text.Sorted | notes_manager.py:233 | `sorted` of distinct keys is ascending, with the same length and members |
| Text.AscendingUnique | notes_manager.py:233 | An ascending sequence is fixed by its members |
| Text.StrLessTotal | notes_manager.py:233 | Any two distinct strings are ordered |
| Lists.IndexOf | notes_manager.py:204 | The first position holding the object |
| Lists.RemoveDistinct | notes_manager.py:204 | Removing from a list without repeats drops exactly that object, keeps the others in order and shortens the list by one |
| Notes.FormatTag | notes_manager.py:73 | Every stored tag starts with `#` |
| Notes.FormatTags | notes_manager.py:71-73 | One tag per comma-separated piece, each starting with `#` |
| Notes.FormatTagIdempotent | notes_manager.py:73 | Formatting a stored tag again changes nothing |
| Notes.FormatTagSpacedHash | notes_manager.py:73 | A piece `" #q"` becomes `"##q"`, because the `#` test comes before stripping |
| Notes.FormatTagSpacedHashExample | notes_manager.py:73 | `" #x"` becomes `"##x"` |
| Notes.FormatTagsAvoidComma | notes_manager.py:71-73 | No stored tag contains a comma |
| Notes.LoadTags | notes_manager.py:44 | Reading the column back always gives at least one tag |
| Notes.TagsRoundTrip | notes_manager.py:35-44 | A non-empty tag list with no tag containing `', '` survives dump and load |
| Notes.FormattedTagsRoundTrip | notes_manager.py:35-44 | Tags made from a tag line always survive dump and load |
| Notes.TagsRoundTripFails | notes_manager.py:35-44 | An empty list reloads as `['']`, and a tag `'a, b'` reloads split in two |
| Notes.Note.constructor | notes_manager.py:11-13 | Text as given; a missing tag list becomes `[]` |
| Notes.Select | notes_manager.py:122 | In list order, the result holds exactly the notes of the list that match |
| Notes.SelectMembers | notes_manager.py:187 | A note is selected exactly when it is in the list and matches |
| Notes.Accepted | notes_manager.py:65-69 | The accepted entries are the entries before the first stop word (`закінчити`/`вийти`, any case) |
| Notes.KeywordDispatch | notes_manager.py:113-118 | `текст` sets only the text query and `тег` only the tag query; any other keyword sets neither |
| Notes.MatchingMembers | notes_manager.py:120-127 | A note is found exactly when it is in the list and a given query hits its text or one of its tags |
| Notes.MatchingDispatch | notes_manager.py:113-127 | With no query given beforehand, `текст` finds the text matches, `тег` the tag matches and any other keyword nothing |
| Notes.Occurrences | notes_manager.py:227-231 | Under a tag, only the note itself is filed, and it is filed when it carries that tag |
| Notes.OccurrencesCount | notes_manager.py:227-231 | A note is filed under a tag exactly as many times as the tag occurs in its tags |
| Notes.Tagged | notes_manager.py:225-231 | The notes filed under a tag are the notes of the list carrying it |
| Notes.TaggedNonEmpty | notes_manager.py:228-229 | A tag gets a key exactly when some note carries it |
| Notes.FileUnderTags | notes_manager.py:227-231 | The inner loop files the note under each of its tags. The earlier keys stay first, in their order, and each key it adds is one of the note's tags and listed once |
| Notes.Group | notes_manager.py:241-243 | One row per note under the tag, each carrying the tag |
| Notes.AddRows | notes_manager.py:242-243 | The inner display loop adds the rows of one tag at the end |
| Notes.Display | notes_manager.py:240-243 | The display loop yields, tag by tag, the rows of the notes carrying that tag |
| Notes.ListingOrdered | notes_manager.py:233-243 | Every row carries a listed tag, and the tag column of the table is in ascending order |
| Notes.NotesManager.Append | notes_manager.py:75 | The note goes at the end, and no note object is listed twice |
| Notes.NotesManager.AddNote | notes_manager.py:65-77 | One new note at the end per accepted entry, with its text and formatted tags. Earlier notes are kept, text and tags included |
| Notes.NotesManager.EditNote | notes_manager.py:159-173 | A valid index replaces that note's text and tags only. Any other index changes nothing, and the list stays the same |
| Notes.NotesManager.SearchNotes | notes_manager.py:106-127 | First the text matches, then the tag matches; a note is found exactly when a query in effect hits it. The list is not changed |
| Notes.NotesManager.DeleteNote | notes_manager.py:184-209 | A choice `1..n` among the matches removes exactly that match. 0, unparsable input or an out-of-range choice keeps the list |
| Notes.NotesManager.GroupByTag | notes_manager.py:225-231 | The dictionary has a key for each carried tag, holding the notes carrying it; its key list names each key once |
| Notes.NotesManager.SortNotesByTags | notes_manager.py:221-243 | The tags are ascending and exactly the tags carried. The rows are the listing of those tags, and an empty list gives no rows |
| Calendar.DaysInMonth | contact_manager.py:327 | 28 to 31 days; 29 exactly for February of a leap year |
| Calendar.ReplaceYear | contact_manager.py:327 | `replace(year=y)` succeeds exactly when the resulting date is valid, and keeps the month and day. For a valid date and a year in `1..9999`, it raises exactly for 29 February in a common year |
| Calendar.LeapThenCommon | contact_manager.py:330 | A leap year is followed by a common year |
| Calendar.YearStep | contact_manager.py:285 | The ordinal of 1 January moves ahead by the length of the year |
| Calendar.OrdinalBefore | contact_manager.py:285 | Date order is ordinal order, and equal dates have equal ordinals |
| Calendar.OrdinalLimits | contact_manager.py:285 | `date.min` has ordinal 1 and `date.max` ordinal 3652059 |
| Calendar.OrdinalRange | contact_manager.py:285 | Every valid date has an ordinal in `1..3652059` |
| Pattern.PhoneBounds | contact_manager.py:76-77 | An accepted phone has 4 to 20 digits and at most 26 characters |
| Pattern.PhoneStart | contact_manager.py:76-77 | An accepted phone starts with `+` or a digit |
| Pattern.PhoneRejectsLeadingParen | contact_manager.py:76-77 | A string starting with `(` is rejected |
| Pattern.PhoneRejectsParenExample | contact_manager.py:75-77 | `(050)123-45-67` is rejected |
| Pattern.PhonePlainDigits | contact_manager.py:76-77 | Any ten digits are accepted |
| Pattern.PhoneAcceptsLocal | contact_manager.py:75-77 | `0501234567` is accepted |
| Pattern.PhonePlusTwelveDigits | contact_manager.py:76-77 | `+` then twelve digits is accepted |
| Pattern.PhoneAcceptsInternational | contact_manager.py:75-77 | `+380501234567` is accepted |
| Pattern.PhoneSeparatedGroups | contact_manager.py:76-77 | Groups of 3, 3, 2 and 2 digits with a separator between each are accepted |
| Pattern.PhoneAcceptsDashed | contact_manager.py:75-77 | `050-123-45-67` is accepted |
| Pattern.PhoneAcceptsUnbalanced | contact_manager.py:76-77 | `0(501234567`, with an unbalanced parenthesis, is accepted |
| Pattern.EmailOneAt | contact_manager.py:89-90 | An accepted address contains exactly one `@` |
| Pattern.EmailTrailingNewline | contact_manager.py:89-90 | `t + "\n"` is accepted exactly when `t` is a full match |
| Pattern.EmailAcceptsExample | contact_manager.py:89-90 | `j.doe+x@my-box.co.ua` is accepted |
| Pattern.EmailAcceptsNewlineExample | contact_manager.py:89-90 | `a@b.c\n` is accepted |
| Pattern.EmailRejectsNoDotExample | contact_manager.py:89-90 | `admin@localhost` is rejected |
| Contacts.Contact.constructor | contact_manager.py:12-18 | Every field holds its argument |
| Contacts.SamePhoneDifferentNumbers | contact_manager.py:130 | `0501234567` and `7654321050` count as the same phone |
| Contacts.PhoneAcceptsReversed | contact_manager.py:130 | `7654321050` passes the phone validator too, so the duplicate rule can hit valid numbers |
| Contacts.SamePhoneRepeated | contact_manager.py:130 | A phone and the phone written twice count as the same |
| Contacts.FirstMatch | contact_manager.py:181-210 | The position of the first contact whose lower-cased name contains the lower-cased query, or none when no contact matches |
| Contacts.EmptyQueryFindsFirst | contact_manager.py:181-207 | The empty query finds the first contact |
| Contacts.NextBirthday | contact_manager.py:312-332 | Same month and day. The year is today's, or the next one when the birthday has passed, so the result is never before today. 29 February raises `ValueError` unless today's year is leap and the day is still ahead |
| Contacts.InWindow | contact_manager.py:285 | Without an exception, a contact is listed exactly when its next birthday is 1 to `days` days after today. The filter raises exactly when `get_next_birthday` does, or when the birthday is still ahead and `today + timedelta(days)` overflows (then `OverflowError`) |
| Contacts.BirthdayTodayNotListed | contact_manager.py:285 | A birthday falling today is never listed |
| Contacts.EmptyWindow | contact_manager.py:285 | With `days <= 0` nobody is listed |
| Contacts.WindowWidens | contact_manager.py:285 | A contact listed for `days` is listed for a wider window that does not overflow |
| Contacts.AgeAtNextBirthday | contact_manager.py:299 | For a listed contact, the age expression is the age reached on the next birthday |
| Contacts.Upcoming | contact_manager.py:285 | The filter succeeds exactly when no contact's window raises. It then keeps exactly the contacts whose next birthday is in the window |
| Contacts.UpcomingInOrder | contact_manager.py:285 | The listed contacts keep the order of the book |
| Contacts.RowFor | contact_manager.py:295-306 | A row shows the contact's name, the birthday and the age on the next birthday. The remaining days are the ordinal difference between the next birthday and today, which lies in `1..days` |
| Contacts.ContactManager.constructor | contact_manager.py:21-22 | The book starts empty |
| Contacts.ContactManager.AddContact | contact_manager.py:128-138 | A contact is added exactly when no stored phone has the same character set. On adding, one new contact with the given fields goes at the end; otherwise nothing changes |
| Contacts.ContactManager.SearchContacts | contact_manager.py:169-210 | The first matching contact, or none exactly when no name matches; the book is unchanged |
| Contacts.ContactManager.EditContact | contact_manager.py:213-256 | None changes nothing. Name and address take non-empty input only. Phone and e-mail take non-empty input that passes its validator. The birthday takes a parsed date, and every other field is kept |
| Contacts.ContactManager.DeleteContact | contact_manager.py:260-275 | The given contact, or else the search result, is removed by identity when it is in the book, the others keeping their order. Otherwise nothing changes |
| Contacts.ContactManager.UpcomingBirthdays | contact_manager.py:278-309 | Rows exactly when the filter does not raise: one per listed contact, in order, with name, birthday, the exact remaining days (within `1..days`) and age |

## Left out

- All console I/O (`input`, `console.input`, `console.print`, `rich` tables): prompted values are parameters and printed values are results or dropped.
- `assistant.py`: command dispatch and completion that only call the managers.
- The retry loop of `organize_folder` on a bad folder (sorter_manager.py:61-66). It recurses on user input; the model returns `NotAFolder` and changes nothing.
- The interactive validation loops of `add_contact_from_console` (contact_manager.py:96-123).
- CSV reading, writing and quoting in `dump`, `load`, `dump_notes` and `load_notes`: only the `', '` join and split of the tag column is modelled.
- `dateutil.parser.parse` and `strftime`/`strptime`: a new birthday is a `DateInput` (blank, a parsed date, or unparsable).
- `int()` parsing of the deletion choice: it is an `Option<int>`, where `None` stands for unparsable input.
- `datetime.today()`: today is a parameter. One value stands for every call, though the source calls it again inside `get_next_birthday`.
- The string-birthday branch of `get_next_birthday` (contact_manager.py:323-324): birthdays are dates.
- `shutil.move` and `mkdir` beyond a rename and creating a missing directory (cross-device copy, permissions): the filesystem is an abstract map.
- `handle_file` on a path that is not a regular file in an existing folder: `organize_folder` only passes regular files of a directory.
- The order of `iterdir`: the listing is any sequence of entry names.
- Unicode beyond ASCII and the Cyrillic block: `lower`/`upper` map only those, and `\d` is an ASCII digit.
- `date.fromordinal` and the value of `today + timedelta(days)`: only the comparison through ordinals is modelled.
- Notes.NotesManager.GroupByTag: its key list is not stated to be in order of first occurrence (only that it names each key once), because only its sorted form is used.
- The file contents moved by `shutil.move` are bytes that the model carries unchanged but never reads.
