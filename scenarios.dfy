/**
 * Call sequences on one TextEditor, proved from the method contracts alone:
 * what a caller of the editor can rely on when it chains operations.
 */
module Scenarios {
  import opened Ascii
  import Cipher
  import Editor

  /** Undo straight after createNewFile gives back the lines it discarded. */
  method UndoAfterCreateNewFile(e: Editor.TextEditor) returns (ok: bool)
    modifies e
    ensures ok && e.lines == old(e.lines) && e.undoStack == old(e.undoStack) && e.redoStack == [[]]
  {
    e.CreateNewFile();
    ok := e.Undo();
  }

  /** Undo straight after clearText gives back the lines it discarded; the path was never touched. */
  method UndoAfterClearText(e: Editor.TextEditor) returns (ok: bool)
    modifies e
    ensures ok && e.lines == old(e.lines) && e.undoStack == old(e.undoStack)
    ensures e.currentFilePath == old(e.currentFilePath)
  {
    e.ClearText();
    ok := e.Undo();
  }

  /**
   * Encrypting and then decrypting with the same password, with no edit in
   * between, succeeds and restores printable text; the history holds both
   * snapshots.
   */
  method EncryptThenDecrypt(e: Editor.TextEditor, password: Text) returns (encrypted: bool, decrypted: bool)
    requires password != [] && Cipher.AllPrintable(e.lines)
    modifies e
    ensures encrypted && decrypted && e.lines == old(e.lines)
    ensures e.undoStack == old(e.undoStack) + [old(e.lines), Cipher.CryptLines(old(e.lines), password)]
    ensures e.redoStack == [] && e.unsavedChanges
  {
    ghost var plain := e.lines;
    encrypted := e.EncryptFile(password);
    ghost var cipher := e.lines;
    assert cipher == Cipher.CryptLines(plain, password);
    assert e.undoStack == old(e.undoStack) + [plain];
    Cipher.EncryptDecryptRoundTrip(plain, password);
    decrypted := e.DecryptFile(password);
    assert e.undoStack == old(e.undoStack) + [plain] + [cipher];
  }

  /** "AA" encrypted with "a" is refused by decryption with "!", and the encrypted text stays. */
  method WrongPasswordKeepsCiphertext() returns (decrypted: bool, after: seq<Text>)
    ensures !decrypted
    ensures after == Cipher.CryptLines([[0x41, 0x41]], [0x61])
  {
    var e := new Editor.TextEditor();
    e.AddLine([0x41, 0x41]);
    var encrypted := e.EncryptFile([0x61]);
    Cipher.WrongPasswordRejected();
    assert e.lines == Cipher.CryptLines([[0x41, 0x41]], [0x61]);
    decrypted := e.DecryptFile([0x21]);
    after := e.lines;
  }

  /**
   * From ["a"], adding "b" and undoing gives ["a"], redoing gives ["a", "b"];
   * an edit made after an undo leaves nothing to redo.
   */
  method UndoRedoSequence() returns (undone: seq<Text>, redone: seq<Text>, redoAfterEdit: bool)
    ensures undone == [[0x61]] && redone == [[0x61], [0x62]] && !redoAfterEdit
  {
    var e := new Editor.TextEditor();
    e.AddLine([0x61]);
    e.AddLine([0x62]);
    var ok := e.Undo();
    undone := e.lines;
    ok := e.Redo();
    redone := e.lines;
    ok := e.Undo();
    e.AddLine([0x63]);
    redoAfterEdit := e.Redo();
  }
}
