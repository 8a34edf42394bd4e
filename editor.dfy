/**
 * The TextEditor object: a line buffer, undo and redo stacks of full
 * snapshots of it, the dirty flag, the current file path and the transient
 * password.  Every mutating method checks its arguments, records a snapshot,
 * changes the lines and sets the dirty flag; its contract states the new
 * state as UndoRedo.Commit of the old history and the new lines.
 */
module Editor {
  import opened Ascii
  import opened Optional
  import Cipher
  import TextOps
  import UndoRedo

  class TextEditor {
    var lines: seq<Text>
    var currentFilePath: Text
    var unsavedChanges: bool
    var undoStack: seq<seq<Text>>
    var redoStack: seq<seq<Text>>
    var tempPassword: Text

    /** The buffer and both snapshot stacks as one value. */
    function History(): UndoRedo.History
      reads this
    {
      UndoRedo.History(lines, undoStack, redoStack)
    }

    /** An empty buffer, empty history, no file, nothing unsaved. */
    constructor ()
      ensures History() == UndoRedo.History([], [], [])
      ensures !unsavedChanges && currentFilePath == [] && tempPassword == []
    {
      lines, undoStack, redoStack := [], [], [];
      currentFilePath, tempPassword := [], [];
      unsavedChanges := false;
    }

    // -------------------------------------------------------------------------
    // Cipher

    /** clearPassword, with secureClear's effect: the password is gone. */
    method ClearPassword()
      modifies this`tempPassword
      ensures tempPassword == []
    {
      tempPassword := [];
    }

    /** deriveKey: append to_string(|password| * (i + 1)) + password until long enough, then truncate. */
    static method DeriveKey(password: Text, length: nat) returns (key: Text)
      ensures key == Cipher.DeriveKey(password, length)
    {
      key := [];
      var pwdLen := |password|;
      if pwdLen == 0 {
        return;
      }
      var i: nat := 0;
      while |key| < length
        invariant key == Cipher.Stream(password, i)
        decreases length - |key|
      {
        key := key + (DecimalString(pwdLen * (i + 1)) + password);
        i := i + 1;
      }
      Cipher.DeriveKeyIsStreamPrefix(password, length, i);
      key := key[..length];
    }

    /** xorCrypt: result[i] = data[i] ^ key[i % |key|], or the data itself for an empty key. */
    static method XorCrypt(data: Text, key: Text) returns (result: Text)
      ensures result == Cipher.XorCrypt(data, key)
    {
      if key == [] {
        return data;
      }
      result := data;
      var i := 0;
      while i < |data|
        invariant 0 <= i <= |data| && |result| == |data|
        invariant forall k :: 0 <= k < i ==> result[k] == data[k] ^ key[k % |key|]
      {
        result := result[i := data[i] ^ key[i % |key|]];
        i := i + 1;
      }
    }

    /** The per-line loop shared by encryptFile and decryptFile. */
    method CryptAllLines(password: Text)
      modifies this`lines
      ensures lines == Cipher.CryptLines(old(lines), password)
    {
      var i := 0;
      while i < |lines|
        invariant 0 <= i <= |lines| == |old(lines)|
        invariant forall k :: 0 <= k < i ==> lines[k] == Cipher.CryptLine(old(lines)[k], password)
        invariant forall k :: i <= k < |lines| ==> lines[k] == old(lines)[k]
      {
        var key := DeriveKey(password, |lines[i]|);
        var line := XorCrypt(lines[i], key);
        lines := lines[i := line];
        i := i + 1;
      }
    }

    /** The second pass of decryptFile: stop at the first byte isprint rejects. */
    static method AllLinesPrintable(ls: seq<Text>) returns (allPrintable: bool)
      ensures allPrintable == Cipher.AllPrintable(ls)
    {
      allPrintable := true;
      var i := 0;
      while i < |ls|
        invariant 0 <= i <= |ls|
        invariant allPrintable
        invariant forall a, b :: 0 <= a < i && 0 <= b < |ls[a]| ==> IsPrint(ls[a][b])
      {
        var j := 0;
        while j < |ls[i]|
          invariant 0 <= j <= |ls[i]|
          invariant allPrintable
          invariant forall b :: 0 <= b < j ==> IsPrint(ls[i][b])
        {
          if !IsPrint(ls[i][j]) {
            allPrintable := false;
            break;
          }
          j := j + 1;
        }
        if !allPrintable {
          break;
        }
        i := i + 1;
      }
    }

    /**
     * encryptFile: refuses an empty password without touching anything;
     * otherwise records a snapshot, replaces every line by its transform,
     * keeps the password and sets the dirty flag.
     */
    method EncryptFile(password: Text) returns (ok: bool)
      modifies this`lines, this`undoStack, this`redoStack, this`unsavedChanges, this`tempPassword
      ensures ok == (password != [])
      ensures !ok ==> unchanged(this)
      ensures ok ==> History() == UndoRedo.Commit(old(History()), Cipher.CryptLines(old(lines), password))
      ensures ok ==> |lines| == |old(lines)| && forall i :: 0 <= i < |lines| ==> |lines[i]| == |old(lines)[i]|
      ensures ok ==> unsavedChanges && tempPassword == password
    {
      if password == [] {
        return false;
      }
      SaveState();
      tempPassword := password;
      CryptAllLines(password);
      unsavedChanges := true;
      return true;
    }

    /**
     * decryptFile: refuses an empty password without touching anything;
     * otherwise records a snapshot and transforms every line, and keeps the
     * result only if every byte is printable.  On a failed check the lines
     * are restored from the backup, but the snapshot stays on the undo stack,
     * redo stays emptied and the password stays set.
     */
    method DecryptFile(password: Text) returns (ok: bool)
      modifies this`lines, this`undoStack, this`redoStack, this`unsavedChanges, this`tempPassword
      ensures password == [] ==> !ok && unchanged(this)
      ensures password != [] ==> ok == Cipher.AllPrintable(Cipher.CryptLines(old(lines), password))
      ensures password != [] ==> undoStack == old(undoStack) + [old(lines)] && redoStack == [] && tempPassword == password
      ensures ok ==> lines == Cipher.CryptLines(old(lines), password) && unsavedChanges
      ensures password != [] && !ok ==> lines == old(lines) && unsavedChanges == old(unsavedChanges)
    {
      if password == [] {
        return false;
      }
      var backup := lines;
      SaveState();
      tempPassword := password;
      CryptAllLines(password);
      var allPrintable := AllLinesPrintable(lines);
      if allPrintable {
        unsavedChanges := true;
        return true;
      }
      lines := backup;
      return false;
    }

    // -------------------------------------------------------------------------
    // History

    /** saveState: push a copy of the lines onto undo, empty redo. */
    method SaveState()
      modifies this`undoStack, this`redoStack
      ensures History() == UndoRedo.Record(old(History()))
    {
      undoStack := undoStack + [lines];
      redoStack := [];
    }

    /** undo: fails on an empty undo stack; otherwise the lines go to redo and the top snapshot comes back. */
    method Undo() returns (ok: bool)
      modifies this`lines, this`undoStack, this`redoStack, this`unsavedChanges
      ensures ok == (old(undoStack) != [])
      ensures !ok ==> unchanged(this)
      ensures ok ==> UndoRedo.Undo(old(History())) == Some(History()) && unsavedChanges
    {
      if undoStack == [] {
        return false;
      }
      redoStack := redoStack + [lines];
      lines := undoStack[|undoStack| - 1];
      undoStack := undoStack[..|undoStack| - 1];
      unsavedChanges := true;
      return true;
    }

    /** redo: fails on an empty redo stack; otherwise the lines go to undo and the top redo snapshot comes back. */
    method Redo() returns (ok: bool)
      modifies this`lines, this`undoStack, this`redoStack, this`unsavedChanges
      ensures ok == (old(redoStack) != [])
      ensures !ok ==> unchanged(this)
      ensures ok ==> UndoRedo.Redo(old(History())) == Some(History()) && unsavedChanges
    {
      if redoStack == [] {
        return false;
      }
      undoStack := undoStack + [lines];
      lines := redoStack[|redoStack| - 1];
      redoStack := redoStack[..|redoStack| - 1];
      unsavedChanges := true;
      return true;
    }

    // -------------------------------------------------------------------------
    // Line operations

    /** addLine: append one line. */
    method AddLine(line: Text)
      modifies this`lines, this`undoStack, this`redoStack, this`unsavedChanges
      ensures History() == UndoRedo.Commit(old(History()), old(lines) + [line]) && unsavedChanges
    {
      SaveState();
      lines := lines + [line];
      unsavedChanges := true;
    }

    /** deleteLine: remove line n (1-based); later lines move down by one. */
    method DeleteLine(lineNumber: nat) returns (ok: bool)
      modifies this`lines, this`undoStack, this`redoStack, this`unsavedChanges
      ensures ok == (1 <= lineNumber <= |old(lines)|)
      ensures !ok ==> unchanged(this)
      ensures ok ==> History() == UndoRedo.Commit(old(History()), old(lines)[..lineNumber - 1] + old(lines)[lineNumber..])
      ensures ok ==> unsavedChanges && |lines| == |old(lines)| - 1
      ensures ok ==> forall k :: 0 <= k < |lines| ==>
                       lines[k] == if k < lineNumber - 1 then old(lines)[k] else old(lines)[k + 1]
    {
      if lineNumber < 1 || lineNumber > |lines| {
        return false;
      }
      SaveState();
      lines := lines[..lineNumber - 1] + lines[lineNumber..];
      unsavedChanges := true;
      return true;
    }

    /** replaceLine: overwrite line n (1-based). */
    method ReplaceLine(lineNumber: nat, newLine: Text) returns (ok: bool)
      modifies this`lines, this`undoStack, this`redoStack, this`unsavedChanges
      ensures ok == (1 <= lineNumber <= |old(lines)|)
      ensures !ok ==> unchanged(this)
      ensures ok ==> History() == UndoRedo.Commit(old(History()), old(lines)[lineNumber - 1 := newLine])
      ensures ok ==> unsavedChanges
    {
      if lineNumber < 1 || lineNumber > |lines| {
        return false;
      }
      SaveState();
      lines := lines[lineNumber - 1 := newLine];
      unsavedChanges := true;
      return true;
    }

    /**
     * searchText: the 1-based numbers of the lines where some occurrence met
     * by the find-and-skip loop is a whole word, in increasing order, at most
     * once each; nothing for an empty keyword.
     */
    method SearchText(keyword: Text) returns (matches: seq<nat>)
      ensures keyword == [] ==> matches == []
      ensures forall k, l :: 0 <= k < l < |matches| ==> matches[k] < matches[l]
      ensures forall n :: n in matches <==>
                keyword != [] && 1 <= n <= |lines| && TextOps.LineMatches(lines[n - 1], keyword, 0)
    {
      matches := [];
      if keyword == [] {
        return;
      }
      var i := 0;
      while i < |lines|
        invariant 0 <= i <= |lines|
        invariant forall k, l :: 0 <= k < l < |matches| ==> matches[k] < matches[l]
        invariant forall k :: 0 <= k < |matches| ==> matches[k] <= i
        invariant forall n :: n in matches <==> 1 <= n <= i && TextOps.LineMatches(lines[n - 1], keyword, 0)
      {
        var hit := LineHasMatch(lines[i], keyword);
        if hit {
          matches := matches + [i + 1];
        }
        i := i + 1;
      }
    }

    /**
     * The inner loop of searchText on one line: follow the occurrences found
     * by find, skipping |keyword| bytes after each one that is not a whole
     * word, and stop at the first one that is.
     */
    static method LineHasMatch(line: Text, keyword: Text) returns (hit: bool)
      requires keyword != []
      ensures hit == TextOps.LineMatches(line, keyword, 0)
    {
      var pos: nat := 0;
      var next := TextOps.Find(line, keyword, pos);
      while next.Some?
        invariant pos <= |line| && next == TextOps.Find(line, keyword, pos)
        invariant TextOps.LineMatches(line, keyword, 0) == TextOps.LineMatches(line, keyword, pos)
        decreases |line| - pos
      {
        var p := next.value;
        var startBoundary := p == 0 || !IsAlnum(line[p - 1]);
        var endBoundary := p + |keyword| == |line| || !IsAlnum(line[p + |keyword|]);
        TextOps.LineMatchesStep(line, keyword, pos);
        if startBoundary && endBoundary {
          return true;
        }
        pos := p + |keyword|;
        next := TextOps.Find(line, keyword, pos);
      }
      TextOps.LineMatchesStep(line, keyword, pos);
      return false;
    }

    /** toTitle: the newWord loop (see TextOps.TitleFrom). */
    static method ToTitle(str: Text) returns (result: Text)
      ensures result == TextOps.Title(str)
    {
      result := str;
      var newWord := true;
      var i := 0;
      while i < |result|
        invariant 0 <= i <= |str| && |result| == |str|
        invariant TextOps.TitleFrom(str[i..], newWord) == TextOps.Title(str)[i..]
        invariant forall k :: 0 <= k < i ==> result[k] == TextOps.Title(str)[k]
        invariant forall k :: i <= k < |str| ==> result[k] == str[k]
      {
        var c := result[i];
        ghost var rest := TextOps.TitleFrom(str[i..], newWord);
        assert str[i..][0] == c && str[i..][1..] == str[i + 1..];
        if newWord && IsAlpha(c) {
          result := result[i := UpperByte(c)];
          newWord := false;
        } else if IsSpace(c) {
          newWord := true;
        } else {
          result := result[i := LowerByte(c)];
        }
        assert rest[0] == result[i] && rest[1..] == TextOps.TitleFrom(str[i + 1..], newWord);
        i := i + 1;
      }
      assert result == TextOps.Title(str);
    }

    /** toUpperCase: upper-case line n (1-based). */
    method ToUpperCase(lineNumber: nat) returns (ok: bool)
      modifies this`lines, this`undoStack, this`redoStack, this`unsavedChanges
      ensures ok == (1 <= lineNumber <= |old(lines)|)
      ensures !ok ==> unchanged(this)
      ensures ok ==> History() == UndoRedo.Commit(old(History()),
                                   old(lines)[lineNumber - 1 := TextOps.Upper(old(lines)[lineNumber - 1])])
      ensures ok ==> unsavedChanges
    {
      if lineNumber < 1 || lineNumber > |lines| {
        return false;
      }
      SaveState();
      lines := lines[lineNumber - 1 := TextOps.Upper(lines[lineNumber - 1])];
      unsavedChanges := true;
      return true;
    }

    /** toLowerCase: lower-case line n (1-based). */
    method ToLowerCase(lineNumber: nat) returns (ok: bool)
      modifies this`lines, this`undoStack, this`redoStack, this`unsavedChanges
      ensures ok == (1 <= lineNumber <= |old(lines)|)
      ensures !ok ==> unchanged(this)
      ensures ok ==> History() == UndoRedo.Commit(old(History()),
                                   old(lines)[lineNumber - 1 := TextOps.Lower(old(lines)[lineNumber - 1])])
      ensures ok ==> unsavedChanges
    {
      if lineNumber < 1 || lineNumber > |lines| {
        return false;
      }
      SaveState();
      lines := lines[lineNumber - 1 := TextOps.Lower(lines[lineNumber - 1])];
      unsavedChanges := true;
      return true;
    }

    /** toTitleCase: title-case line n (1-based). */
    method ToTitleCase(lineNumber: nat) returns (ok: bool)
      modifies this`lines, this`undoStack, this`redoStack, this`unsavedChanges
      ensures ok == (1 <= lineNumber <= |old(lines)|)
      ensures !ok ==> unchanged(this)
      ensures ok ==> History() == UndoRedo.Commit(old(History()),
                                   old(lines)[lineNumber - 1 := TextOps.Title(old(lines)[lineNumber - 1])])
      ensures ok ==> unsavedChanges
    {
      if lineNumber < 1 || lineNumber > |lines| {
        return false;
      }
      SaveState();
      var titled := ToTitle(lines[lineNumber - 1]);
      lines := lines[lineNumber - 1 := titled];
      unsavedChanges := true;
      return true;
    }

    /**
     * changeAllLinesCase: one snapshot for the whole batch, then every line
     * converted by the selected mode; an unknown mode still records a
     * snapshot and sets the dirty flag but changes no line.
     */
    method ChangeAllLinesCase(caseType: int)
      modifies this`lines, this`undoStack, this`redoStack, this`unsavedChanges
      ensures History() == UndoRedo.Commit(old(History()), TextOps.ConvertAll(caseType, old(lines)))
      ensures unsavedChanges
    {
      SaveState();
      var i := 0;
      while i < |lines|
        invariant 0 <= i <= |lines| == |old(lines)|
        invariant forall k :: 0 <= k < i ==> lines[k] == TextOps.ConvertCase(caseType, old(lines)[k])
        invariant forall k :: i <= k < |lines| ==> lines[k] == old(lines)[k]
        invariant History().undo == old(undoStack) + [old(lines)] && redoStack == []
      {
        var line := lines[i];
        if caseType == 1 {
          line := TextOps.Upper(line);
        } else if caseType == 2 {
          line := TextOps.Lower(line);
        } else if caseType == 3 {
          line := ToTitle(line);
        }
        lines := lines[i := line];
        i := i + 1;
      }
      unsavedChanges := true;
    }

    /** getWordCount: the words `>>` extracts from every line, summed. */
    method GetWordCount() returns (count: nat)
      ensures count == TextOps.TotalWords(lines)
      ensures count <= TextOps.TotalChars(lines)
    {
      count := 0;
      var i := 0;
      while i < |lines|
        invariant 0 <= i <= |lines| && count == TextOps.TotalWords(lines[..i])
      {
        assert lines[..i + 1][..i] == lines[..i];
        count := count + TextOps.WordCount(lines[i]);
        i := i + 1;
      }
      assert lines[..i] == lines;
      TextOps.WordsAtMostChars(lines);
    }

    /** getCharCount: the lengths of all lines, summed. */
    method GetCharCount() returns (count: nat)
      ensures count == TextOps.TotalChars(lines)
    {
      count := 0;
      var i := 0;
      while i < |lines|
        invariant 0 <= i <= |lines| && count == TextOps.TotalChars(lines[..i])
      {
        assert lines[..i + 1][..i] == lines[..i];
        count := count + |lines[i]|;
        i := i + 1;
      }
      assert lines[..i] == lines;
    }

    /** getLineCount */
    method GetLineCount() returns (count: nat)
      ensures count == |lines|
    {
      count := |lines|;
    }

    /** filterLines: keep, in order, the lines that contain the keyword as a substring. */
    method FilterLines(keyword: Text)
      modifies this`lines, this`undoStack, this`redoStack, this`unsavedChanges
      ensures History() == UndoRedo.Commit(old(History()), TextOps.Filtered(old(lines), keyword))
      ensures unsavedChanges
    {
      SaveState();
      var filteredLines := [];
      var i := 0;
      while i < |lines|
        invariant 0 <= i <= |lines| && filteredLines == TextOps.Filtered(lines[..i], keyword)
      {
        assert lines[..i + 1][..i] == lines[..i];
        if TextOps.Find(lines[i], keyword, 0).Some? {
          filteredLines := filteredLines + [lines[i]];
        }
        i := i + 1;
      }
      assert lines[..i] == lines;
      lines := filteredLines;
      unsavedChanges := true;
    }

    // -------------------------------------------------------------------------
    // File state (file_io.cpp); opening the file and reading it are parameters

    /** createNewFile: snapshot, empty buffer, no path, no password, dirty. */
    method CreateNewFile()
      modifies this
      ensures History() == UndoRedo.Commit(old(History()), [])
      ensures currentFilePath == [] && tempPassword == [] && unsavedChanges
    {
      SaveState();
      lines := [];
      currentFilePath := [];
      ClearPassword();
      unsavedChanges := true;
    }

    /**
     * loadFile: when the file cannot be opened nothing changes; otherwise a
     * snapshot, the lines read replace the buffer, the path is remembered,
     * the password is cleared and nothing is unsaved.
     */
    method LoadFile(filePath: Text, isOpen: bool, fileLines: seq<Text>) returns (ok: bool)
      modifies this
      ensures ok == isOpen
      ensures !ok ==> unchanged(this)
      ensures ok ==> History() == UndoRedo.Commit(old(History()), fileLines)
      ensures ok ==> currentFilePath == filePath && tempPassword == [] && !unsavedChanges
    {
      if !isOpen {
        return false;
      }
      SaveState();
      lines := [];
      var k := 0;
      while k < |fileLines|
        modifies this`lines
        invariant 0 <= k <= |fileLines| && lines == fileLines[..k]
      {
        lines := lines + [fileLines[k]];
        k := k + 1;
      }
      assert fileLines[..k] == fileLines;
      currentFilePath := filePath;
      ClearPassword();
      unsavedChanges := false;
      return true;
    }

    /** saveToFile(): refuses when no file is selected, otherwise saves to the current path. */
    method SaveToCurrentFile(isOpen: bool) returns (ok: bool)
      modifies this`currentFilePath, this`unsavedChanges
      ensures ok == (old(currentFilePath) != [] && isOpen)
      ensures !ok ==> unchanged(this)
      ensures ok ==> currentFilePath == old(currentFilePath) && !unsavedChanges
    {
      if currentFilePath == [] {
        return false;
      }
      ok := SaveToFile(currentFilePath, isOpen);
    }

    /** saveToFile(path): when the file opens, remember the path and clear the dirty flag. */
    method SaveToFile(filePath: Text, isOpen: bool) returns (ok: bool)
      modifies this`currentFilePath, this`unsavedChanges
      ensures ok == isOpen
      ensures !ok ==> unchanged(this)
      ensures ok ==> currentFilePath == filePath && !unsavedChanges
    {
      if !isOpen {
        return false;
      }
      currentFilePath := filePath;
      unsavedChanges := false;
      return true;
    }

    /** clearText: like createNewFile, but the path is kept. */
    method ClearText()
      modifies this`lines, this`undoStack, this`redoStack, this`unsavedChanges, this`tempPassword
      ensures History() == UndoRedo.Commit(old(History()), [])
      ensures tempPassword == [] && unsavedChanges
    {
      SaveState();
      lines := [];
      ClearPassword();
      unsavedChanges := true;
    }

    /** hasUnsavedChanges */
    method HasUnsavedChanges() returns (dirty: bool)
      ensures dirty == unsavedChanges
    {
      dirty := unsavedChanges;
    }

    /** getLines */
    method GetLines() returns (current: seq<Text>)
      ensures current == lines
    {
      current := lines;
    }
  }

  /** Encrypting or decrypting the buffer never changes the count getCharCount reports. */
  lemma CryptKeepsCharCount(lines: seq<Text>, password: Text)
    ensures TextOps.TotalChars(Cipher.CryptLines(lines, password)) == TextOps.TotalChars(lines)
  {
    TextOps.TotalCharsByLengths(Cipher.CryptLines(lines, password), lines);
  }
}
