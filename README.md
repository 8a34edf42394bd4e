# TextEditor core, modelled in Dafny

This project models the in-memory `TextEditor` of a small console text editor
written in C++. The editor holds a buffer of lines. It keeps two stacks of full
snapshots of that buffer for undo and redo, a dirty flag, the path of the
current file and a transient password. Every editing operation checks its
arguments, pushes a snapshot (`saveState`), changes the lines and sets the
dirty flag. A line cipher XORs each line with a keystream derived from a
password and that line's length. Decryption applies the same transform, then
rolls back when any resulting byte is not printable.

Modules:

- `Ascii` (`ascii.dfy`): bytes (`bv8`), the C-locale `<cctype>` predicates and
  case maps, and `std::to_string` as decimal digits.
- `Optional` (`option.dfy`): the `Option` datatype.
- `Cipher` (`cipher.dfy`): the keystream (`deriveKey`), the cyclic XOR
  (`xorCrypt`), the transform of the whole buffer and the printability check.
- `TextOps` (`text_ops.dfy`): the value-level meaning of the line operations:
  case conversion, `std::string::find`, the whole-word search loop, the
  filter, and the word and character counts.
- `UndoRedo` (`undo_redo.dfy`): the buffer and its two stacks as one value
  `History`, with `saveState`, undo and redo as functions on it.
- `Editor` (`editor.dfy`): the class `TextEditor`. Its fields are the ones the
  C++ class declares. The stacks are sequences with the top at the end. Its
  methods are the loops and state updates of `editor.cpp` and `file_io.cpp`.
  Each method's `modifies` clause names exactly the fields the C++ method
  writes. Each `ensures` gives the new state as a function of the old one.
- `Scenarios` (`scenarios.dfy`): call sequences on one editor, proved from the
  method contracts alone.

Opening a file and reading its lines are parameters of `LoadFile`. The success
of opening a file for writing is a parameter of `SaveToFile` and
`SaveToCurrentFile`.

The model follows the code, including these behaviours a reader may not expect:

- Search can miss a match. After an occurrence that is not a whole word,
  `searchText` resumes `|keyword|` bytes later. So a whole-word occurrence that
  overlaps the rejected one is skipped (`TextOps.OverlappingWholeWordMissed`:
  `"a-a"` in `"xa-a-a"`). The search is sound for every keyword. Completeness
  is proved for keywords made of letters and digits
  (`TextOps.LineMatchesIffWholeWord`). A miss needs a keyword that overlaps
  itself, with a byte that is not a letter or digit just before the overlap, as
  `"a-a"` does.
- A failed decryption does not undo its history bookkeeping. The lines are
  restored from the local backup, but the snapshot stays on the undo stack
  and redo stays emptied.
- `encryptFile` and `decryptFile` leave the password in `tempPassword`.
  Only `clearPassword`, `createNewFile`, `clearText` and a successful
  `loadFile` clear it.
- Title case upper-cases the first letter after whitespace even when other
  non-space bytes come before it: `"1st"` becomes `"1St"`.
- `changeAllLinesCase` with a mode other than 1, 2 or 3 still pushes a
  snapshot and sets the dirty flag.
- The keystream starts with the decimal length of the password. So for lines
  no longer than that prefix, every password of the same length gives the
  same key (`Cipher.DeriveKeyDependsOnlyOnLengthAtFirst`).

## Model

| member | source | states |
|---|---|---|
| `Ascii.IsPrint` | src/editor.cpp:140 | isprint in the C locale: exactly the bytes from space to tilde |
| `Ascii.IsAlpha` | src/editor.cpp:283 | isalpha in the C locale: exactly the ASCII upper- and lower-case letters |
| `Ascii.IsAlnum` | src/editor.cpp:219-221 | isalnum in the C locale: exactly the ASCII letters and decimal digits |
| `Ascii.IsSpace` | src/editor.cpp:286 | isspace in the C locale: space, tab, newline, vertical tab, form feed and carriage return |
| `Ascii.UpperByte` | src/editor.cpp:255-260 | toupper leaves no lower-case letter, keeps alpha/space/alnum class, changes only lower-case letters |
| `Ascii.LowerByte` | src/editor.cpp:267-272 | tolower leaves no upper-case letter, keeps every class, changes only upper-case letters |
| `Ascii.CaseMapsForgetCase` | src/editor.cpp:279-293 | upper-casing a lower-cased byte equals upper-casing it directly, and vice versa |
| `Ascii.DecimalString` | src/editor.cpp:56 | to_string yields a non-empty string of digits whose first digit is 0 exactly for 0 |
| `Ascii.DecimalRoundTrip` | src/editor.cpp:56 | the digits to_string writes denote the number again |
| `Cipher.Block` | src/editor.cpp:56 | each appended block is longer than the password |
| `Cipher.Stream` | src/editor.cpp:55-57 | the key the deriveKey loop has built after n rounds: blocks 0 to n-1 appended in order |
| `Cipher.StreamLength` | src/editor.cpp:55-57 | n blocks hold at least n bytes, so the deriveKey loop terminates |
| `Cipher.StreamPrefix` | src/editor.cpp:55-57 | appending blocks only extends the key built so far |
| `Cipher.DeriveKey` | src/editor.cpp:50-60 | empty key for an empty password, otherwise exactly `length` bytes |
| `Cipher.DeriveKeyIsStreamPrefix` | src/editor.cpp:55-58 | the key is the first `length` bytes of any long enough run of blocks |
| `Cipher.DeriveKeyPrefix` | src/editor.cpp:50-60 | a shorter key for the same password is a prefix of a longer one |
| `Cipher.DeriveKeyDependsOnlyOnLengthAtFirst` | src/editor.cpp:56 | up to the digits of the password length, the key is those digits, whatever the password content |
| `Cipher.XorCrypt` | src/editor.cpp:68-76 | keeps the length; identity for the empty key |
| `Cipher.XorCryptInvolutive` | src/editor.cpp:68-76 | applying the cyclic XOR twice with the same key gives back the data |
| `Cipher.CryptLine` | src/editor.cpp:101-104 | the per-line transform keeps the line length |
| `Cipher.CryptLines` | src/editor.cpp:131-134 | the buffer transform keeps the number of lines and every line's length |
| `Cipher.CryptLinesInvolutive` | src/editor.cpp:101-134 | transforming the buffer twice with one password restores it, since each key depends only on the password and the unchanged length |
| `Cipher.AllPrintable` | src/editor.cpp:137-146 | the second pass of decryptFile: every byte of every line is printable |
| `Cipher.EncryptDecryptRoundTrip` | src/editor.cpp:131-151 | for printable text, decrypting with the encryption password passes the check and restores the text |
| `Cipher.WrongPasswordRejected` | src/tests.cpp:240-243 | "AA" encrypted with "a" and decrypted with "!" fails the printability check |
| `TextOps.Upper` | src/editor.cpp:255-260 | same length; no lower-case byte left; each byte differs only in case |
| `TextOps.Lower` | src/editor.cpp:267-272 | same length; no upper-case byte left; each byte differs only in case |
| `TextOps.UpperIdempotent` | src/editor.cpp:255-260 | upper-casing twice equals upper-casing once |
| `TextOps.LowerIdempotent` | src/editor.cpp:267-272 | lower-casing twice equals lower-casing once |
| `TextOps.TitleFrom` | src/editor.cpp:279-293 | the newWord loop keeps the length |
| `TextOps.TitleFromChangesOnlyCase` | src/editor.cpp:282-291 | every output byte is the upper- or lower-cased input byte |
| `TextOps.NextFlag` | src/editor.cpp:283-290 | whitespace always sets the newWord flag; it stays set past a non-space byte only if it was set and the byte is not a letter |
| `TextOps.TitleFromCons` | src/editor.cpp:282-291 | the loop handles one byte with the current flag, then the rest with the updated flag |
| `TextOps.Title` | src/editor.cpp:279-293 | toTitle keeps the length |
| `TextOps.TitleFromRestOfWord` | src/editor.cpp:288-289 | once a letter is seen, the rest of a word free of whitespace is lower-cased |
| `TextOps.TitleLetterFirst` | src/editor.cpp:283-289 | a word that begins with a letter gets that letter upper-cased and the rest lower-cased |
| `TextOps.TitleOtherFirst` | src/editor.cpp:283-290 | a leading byte that is neither a letter nor whitespace is kept and the flag stays set for what follows |
| `TextOps.TitleWordStep` | src/editor.cpp:283-290 | a non-letter, non-space byte in front of a title-cased word is kept in front of it |
| `TextOps.TitleWord` | src/editor.cpp:279-293 | in one word, the non-letters before the first letter stay, the first letter is upper-cased and every later byte lower-cased |
| `TextOps.TitleTwoWords` | src/tests.cpp:164-166 | two whitespace-separated words that start with letters each get an upper-case first letter and lower-case rest, as in "test line" becoming "Test Line" |
| `TextOps.TitleFromIdempotent` | src/editor.cpp:279-293 | the newWord loop applied twice from the same flag changes nothing more |
| `TextOps.TitleIdempotent` | src/editor.cpp:279-293 | toTitle is idempotent |
| `TextOps.TitleFromIgnoresCase` | src/editor.cpp:279-293 | the newWord loop gives the same result on the upper- or lower-cased input |
| `TextOps.TitleIgnoresCase` | src/editor.cpp:279-293 | toTitle does not depend on the input's letter case |
| `TextOps.TitleFromSplitsAtSpace` | src/editor.cpp:286-287 | whitespace resets the word state: the text after it is title-cased as if it began a line |
| `TextOps.ConvertCase` | src/editor.cpp:350-354 | keeps the length; modes other than 1, 2, 3 leave the line as it is |
| `TextOps.ConvertAll` | src/editor.cpp:347-357 | keeps the number of lines and each line's length |
| `TextOps.ConvertAllIdempotent` | src/editor.cpp:347-357 | converting the whole buffer again with the same mode changes nothing |
| `TextOps.Find` | src/editor.cpp:217 | a position find returns is at or after pos and holds the keyword |
| `TextOps.FindIsFirst` | src/editor.cpp:217 | find returns the first occurrence at or after pos, and fails only when none starts there or later |
| `TextOps.FindDecidesContains` | src/editor.cpp:445 | `find != npos` holds exactly when the keyword occurs in the line |
| `TextOps.WholeWordAt` | src/editor.cpp:219-223 | the keyword occurs at j, with no letter or digit just before it and none just after it |
| `TextOps.LineMatches` | src/editor.cpp:217-228 | the find-and-skip loop from pos: find the next occurrence, report a whole-word one, otherwise resume the keyword's length after its start |
| `TextOps.LineMatchesStep` | src/editor.cpp:217-228 | one round of the loop: no occurrence left means no report; otherwise the occurrence found is a whole word or the search goes on after it |
| `TextOps.LineMatchesSound` | src/editor.cpp:217-228 | a line the search loop reports has a whole-word occurrence of the keyword |
| `TextOps.OverlapPrecededByAlnum` | src/editor.cpp:219 | an occurrence starting inside an earlier one of an alphanumeric keyword has no start boundary |
| `TextOps.LineMatchesCompleteForAlnum` | src/editor.cpp:217-228 | for an alphanumeric keyword the skip of `pos += keyword.length()` jumps over no whole-word occurrence |
| `TextOps.LineMatchesIffWholeWord` | src/editor.cpp:211-231 | for an alphanumeric keyword a line is reported exactly when it holds the keyword as a whole word |
| `TextOps.OverlappingWholeWordMissed` | src/editor.cpp:227 | "a-a" is a whole word of "xa-a-a" at position 3 but the search loop does not report the line |
| `TextOps.Filtered` | src/editor.cpp:441-451 | the filtered buffer is no longer than the original |
| `TextOps.FilteredIndices` | src/editor.cpp:444-448 | the kept lines sit at strictly increasing positions of the original buffer, and those positions are exactly the lines containing the keyword |
| `TextOps.FilteredMembers` | src/editor.cpp:444-448 | a line is kept exactly when it contains the keyword |
| `TextOps.FilteredSpec` | src/editor.cpp:441-451 | the result keeps every line containing the keyword, repeats included, and no other, in their original order |
| `TextOps.FilterEmptyKeepsAll` | src/editor.cpp:445 | filtering by the empty keyword keeps every line |
| `TextOps.LeadingWord` | src/editor.cpp:400 | one extracted word is a prefix free of whitespace that ends at whitespace or the end of the line |
| `TextOps.Words` | src/editor.cpp:398-402 | every word extracted by `>>` is non-empty |
| `TextOps.NoStartsInsideWord` | src/editor.cpp:398-402 | no word starts inside a run of non-whitespace |
| `TextOps.WordsCountStarts` | src/editor.cpp:395-405 | the words extracted from a line are as many as its word starts (non-space bytes after whitespace or at the start) |
| `TextOps.WordCount` | src/editor.cpp:398-402 | the number of words `>>` extracts from one line |
| `TextOps.TotalWords` | src/editor.cpp:395-405 | the sum of the word counts of all lines |
| `TextOps.TotalChars` | src/editor.cpp:411-417 | the sum of the line lengths, without line terminators |
| `TextOps.TotalCharsByLengths` | src/editor.cpp:411-417 | two buffers with the same line lengths have the same character count |
| `Editor.CryptKeepsCharCount` | src/editor.cpp:101-104 | encrypting or decrypting the buffer never changes the character count getCharCount reports |
| `TextOps.WordsAtMostLength` | src/editor.cpp:398-402 | a line holds no more words than bytes |
| `TextOps.WordsAtMostChars` | src/editor.cpp:395-417 | the word count of the buffer never exceeds its character count |
| `UndoRedo.Record` | src/editor.cpp:81-84 | saveState keeps the lines, pushes them on top of undo and empties redo |
| `UndoRedo.Commit` | src/editor.cpp:81-84 | a mutation installs the new lines over a recorded snapshot of the old ones, keeping the older undo stack below it, with redo empty |
| `UndoRedo.Undo` | src/editor.cpp:363-373 | succeeds exactly on a non-empty undo stack; installs the top of undo, which is popped, and the current lines go on top of redo |
| `UndoRedo.Redo` | src/editor.cpp:379-389 | succeeds exactly on a non-empty redo stack; installs the top of redo, which is popped, and the current lines go on top of undo |
| `UndoRedo.RedoUndoesUndo` | src/editor.cpp:363-389 | redo right after a successful undo restores the whole history |
| `UndoRedo.UndoUndoesRedo` | src/editor.cpp:363-389 | undo right after a successful redo restores the whole history |
| `UndoRedo.UndoAfterCommit` | src/editor.cpp:363-373 | undo right after any mutation restores the lines and undo stack from before it, leaving only that edit to redo |
| `UndoRedo.NoRedoAfterCommit` | src/editor.cpp:83 | after any mutation redo fails |
| `UndoRedo.UndoNSucceeds` | src/editor.cpp:363-373 | k undos succeed exactly when undo holds at least k snapshots, and move k of them to redo |
| `UndoRedo.UndoRedoRoundTrip` | src/editor.cpp:363-389 | k undos then k redos with no edit in between restore the exact history, for every k up to the undo depth |
| `Editor.TextEditor.constructor` | src/editor.cpp:15 | empty buffer and stacks, no path, no password, nothing unsaved |
| `Editor.TextEditor.ClearPassword` | src/editor.cpp:30-42 | the password is emptied and nothing else changes |
| `Editor.TextEditor.DeriveKey` | src/editor.cpp:50-60 | the append-then-truncate loop computes `Cipher.DeriveKey` |
| `Editor.TextEditor.XorCrypt` | src/editor.cpp:68-76 | the byte loop computes `Cipher.XorCrypt` |
| `Editor.TextEditor.CryptAllLines` | src/editor.cpp:101-104 | the in-place loop over the lines leaves `Cipher.CryptLines` of the old buffer |
| `Editor.TextEditor.AllLinesPrintable` | src/editor.cpp:137-146 | the early-exit double loop decides whether every byte is printable |
| `Editor.TextEditor.EncryptFile` | src/editor.cpp:91-112 | empty password: false and nothing changes; otherwise one snapshot, redo emptied, every line transformed with its length kept, password kept, dirty set |
| `Editor.TextEditor.DecryptFile` | src/editor.cpp:119-160 | empty password: false and nothing changes; otherwise a snapshot is pushed and redo emptied, and it succeeds exactly when the transformed buffer is printable, keeping it; on failure the lines and dirty flag are as before |
| `Editor.TextEditor.SaveState` | src/editor.cpp:81-84 | pushes the lines onto undo and empties redo, nothing else |
| `Editor.TextEditor.Undo` | src/editor.cpp:363-373 | fails and changes nothing on an empty undo stack; otherwise performs `UndoRedo.Undo` and sets dirty |
| `Editor.TextEditor.Redo` | src/editor.cpp:379-389 | fails and changes nothing on an empty redo stack; otherwise performs `UndoRedo.Redo` and sets dirty |
| `Editor.TextEditor.AddLine` | src/editor.cpp:167-171 | commits the buffer with the line appended and sets dirty |
| `Editor.TextEditor.DeleteLine` | src/editor.cpp:178-187 | out of range: false, no snapshot, nothing changes; otherwise commits the buffer without line n, later lines shifted down by one |
| `Editor.TextEditor.ReplaceLine` | src/editor.cpp:195-204 | out of range: false and nothing changes; otherwise commits the buffer with only entry n-1 replaced |
| `Editor.TextEditor.LineHasMatch` | src/editor.cpp:216-228 | the find-and-skip loop over one line stops with a hit exactly when `TextOps.LineMatches` holds |
| `Editor.TextEditor.SearchText` | src/editor.cpp:211-231 | empty keyword gives nothing; the result is strictly increasing and holds n exactly when line n is reported by the find-and-skip loop |
| `Editor.TextEditor.ToTitle` | src/editor.cpp:279-293 | the newWord loop computes `TextOps.Title` |
| `Editor.TextEditor.ToUpperCase` | src/editor.cpp:300-309 | out of range: false and nothing changes; otherwise commits the buffer with only entry n-1 upper-cased |
| `Editor.TextEditor.ToLowerCase` | src/editor.cpp:316-325 | out of range: false and nothing changes; otherwise commits the buffer with only entry n-1 lower-cased |
| `Editor.TextEditor.ToTitleCase` | src/editor.cpp:332-341 | out of range: false and nothing changes; otherwise commits the buffer with only entry n-1 title-cased |
| `Editor.TextEditor.ChangeAllLinesCase` | src/editor.cpp:347-357 | one snapshot for the whole batch, every line converted by the mode, dirty set |
| `Editor.TextEditor.GetWordCount` | src/editor.cpp:395-405 | the sum of the words in every line, never more than the character count |
| `Editor.TextEditor.GetCharCount` | src/editor.cpp:411-417 | the sum of the line lengths |
| `Editor.TextEditor.GetLineCount` | src/editor.cpp:423-425 | the number of lines |
| `Editor.TextEditor.FilterLines` | src/editor.cpp:441-451 | commits `TextOps.Filtered` of the old buffer and sets dirty |
| `Editor.TextEditor.CreateNewFile` | src/file_io.cpp:10-17 | commits the empty buffer, empties the path and the password, sets dirty |
| `Editor.TextEditor.LoadFile` | src/file_io.cpp:24-44 | open failure: false and nothing changes; otherwise commits the lines read, remembers the path, clears the password and the dirty flag |
| `Editor.TextEditor.SaveToCurrentFile` | src/file_io.cpp:50-56 | no current path, or open failure: false and nothing changes; otherwise clears the dirty flag and keeps the path |
| `Editor.TextEditor.SaveToFile` | src/file_io.cpp:63-78 | open failure: false and nothing changes; otherwise remembers the path and clears the dirty flag, buffer and history untouched |
| `Editor.TextEditor.ClearText` | src/file_io.cpp:83-89 | commits the empty buffer, clears the password, sets dirty, keeps the path |
| `Editor.TextEditor.HasUnsavedChanges` | src/file_io.cpp:108-110 | returns the dirty flag |
| `Editor.TextEditor.GetLines` | src/file_io.cpp:116-118 | returns the buffer |
| `Scenarios.UndoAfterCreateNewFile` | src/file_io.cpp:10-17 | undo straight after createNewFile succeeds and restores the lines and undo stack from before it |
| `Scenarios.UndoAfterClearText` | src/file_io.cpp:83-89 | undo straight after clearText succeeds and restores the lines; the path is unchanged |
| `Scenarios.EncryptThenDecrypt` | src/tests.cpp:228-238 | encrypt then decrypt with one password, on printable text, both succeed and restore the lines |
| `Scenarios.WrongPasswordKeepsCiphertext` | src/tests.cpp:240-243 | decrypting with a wrong password fails, and the buffer is exactly the ciphertext of "AA" under "a" |
| `Scenarios.UndoRedoSequence` | src/tests.cpp:171-195 | add, undo, redo give the expected buffers; an edit after undo leaves nothing to redo |

## Left out

- `src/main.cpp`: the interactive command loop, console code pages and prompts.
- Physical file access in `loadFile` and `saveToFile`: opening, `getline` splitting and writing each line with `"\n"`. Whether the open succeeds and which lines were read are parameters.
- `displayText`, `showStats` and every message written to `std::cout` or `std::cerr`: output only.
- `highlightSyntax`: a cosmetic insertion of an ANSI escape sequence, not part of the editing contract.
- The `catch` branches of `encryptFile` and `decryptFile`: reachable only when allocation fails.
- `secureClear`: modelled inside `ClearPassword` as emptying the password. The `memset` zeroing cannot be observed.
- The destructor, which only calls `clearPassword`: Dafny has no destructors.
- Locale-dependent and signed-`char` behaviour of `<cctype>`: the model uses the ASCII meaning.
- `size_t` width: line numbers, counts and `pwdLen * (i + 1)` are unbounded naturals, so wrap-around on overflow is not modelled.
- `Editor.TextEditor.SearchText`: its contract matches the find-and-skip loop, not a plain "contains a whole word" reading. The two are proved to agree for keywords made of letters and digits; they can differ only for a keyword that overlaps itself with a byte that is not a letter or digit just before the overlap, as in `TextOps.OverlappingWholeWordMissed`.
- `TextOps.Words`: only the `>>` tokenizer over C-locale whitespace is modelled, not stream state or exceptions.
