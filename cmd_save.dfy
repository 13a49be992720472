/**
 The `save <alias>` command: checks the alias, then opens the store and saves
 the current directory under it. An alias is accepted when it is not one of
 the command names, has at most 50 characters, and is a non-empty run of
 ASCII letters, digits, dashes and underscores.
 */
module Commands {
  import opened Records
  import opened Storage

  /** Names that would be read as subcommands, so never accepted as aliases. */
  const ReservedWords: seq<string> := ["save", "list", "delete", "edit", "path", "help", "navigate"]

  const MaxAliasLength := 50

  /** One character of the class [a-zA-Z0-9_-]. */
  predicate IsAliasChar(c: char)
  {
    ('a' <= c <= 'z') || ('A' <= c <= 'Z') || ('0' <= c <= '9') || c == '_' || c == '-'
  }

  /** Whether all of `s` matches the anchored pattern ^[a-zA-Z0-9_-]+$, read one character at a time. */
  function MatchesAliasPattern(s: string): (r: bool)
    ensures r <==> |s| >= 1 && forall i :: 0 <= i < |s| ==> IsAliasChar(s[i])
  {
    |s| >= 1 && IsAliasChar(s[0]) && (|s| == 1 || MatchesAliasPattern(s[1..]))
  }

  /** What an acceptable alias is. */
  ghost predicate ValidAlias(alias: string)
  {
    && alias !in ReservedWords
    && 1 <= |alias| <= MaxAliasLength
    && forall i :: 0 <= i < |alias| ==> IsAliasChar(alias[i])
  }

  /** The alias check: reserved words first, then the length, then the pattern. */
  method IsValidAlias(alias: string) returns (valid: bool)
    ensures valid <==> ValidAlias(alias)
  {
    var i := 0;
    while i < |ReservedWords|
      invariant 0 <= i <= |ReservedWords|
      invariant forall k :: 0 <= k < i ==> alias != ReservedWords[k]
    {
      if alias == ReservedWords[i] {
        return false;
      }
      i := i + 1;
    }

    if |alias| > MaxAliasLength {
      return false;
    }

    valid := MatchesAliasPattern(alias);
  }

  /** Every reserved word is well-formed, so it is the reserved list alone that rejects it. */
  lemma ReservedWordsRejected(w: string)
    requires w in ReservedWords
    ensures !ValidAlias(w)
    ensures 1 <= |w| <= MaxAliasLength && forall i :: 0 <= i < |w| ==> IsAliasChar(w[i])
  {
  }

  /** Any alias longer than 50 characters is rejected, whatever its characters. */
  lemma LongAliasRejected(alias: string)
    requires |alias| > MaxAliasLength
    ensures !ValidAlias(alias)
  {
  }

  /** Alias examples the command accepts: dashes, underscores, mixed case and digits. */
  lemma AcceptedAliasExamples()
    ensures ValidAlias("valid-alias")
    ensures ValidAlias("valid_alias")
    ensures ValidAlias("ValidAlias123")
  {
  }

  /** Alias examples the command rejects: reserved words, the empty alias, a space, an '@', 51 characters. */
  lemma RejectedAliasExamples()
    ensures !ValidAlias("save") && !ValidAlias("list")
    ensures !ValidAlias("")
    ensures !ValidAlias("alias with spaces")
    ensures !ValidAlias("alias@invalid")
    ensures !ValidAlias("aaaaaaaaaaaaaaaaaaaaaaaaaaaaaaaaaaaaaaaaaaaaaaaaaaa")
  {
    assert "alias with spaces"[5] == ' ';
    assert "alias@invalid"[5] == '@';
  }

  /** Only the listed words are reserved: other command-like words pass. */
  lemma UnreservedWordsAccepted()
    ensures ValidAlias("cleanup") && ValidAlias("recent")
  {
  }

  /**
   An accepted alias is pure ASCII, one byte per character, so its length in
   characters is its length in bytes.
   */
  lemma ValidAliasIsAscii(alias: string)
    requires ValidAlias(alias)
    ensures forall i :: 0 <= i < |alias| ==> alias[i] as int < 128
  {
  }

  /** Every alias in `m` is acceptable. */
  ghost predicate AllAliasesValid(m: map<string, Bookmark>)
  {
    forall a :: a in m ==> ValidAlias(a)
  }

  /** Why the command gave up. */
  datatype SaveError =
    | InvalidAlias
    | NoWorkingDirectory
    | StorageInit(cause: StoreError)
    | SaveFailed(cause: StoreError)

  datatype SaveResult = Saved(store: Store) | Failed(error: SaveError)

  /**
   Runs `save <alias>` with `cwd` as the working directory (None when it
   cannot be determined), `file` as what the bookmarks file holds and `now`
   as the time. The command may write the file twice: `initWriteOk` is
   whether the first write, of the new empty container when the file is
   missing, succeeds, and `saveWriteOk` whether the write after the bookmark
   is saved succeeds.
   */
  method SaveCommand(alias: string, cwd: Option<string>, file: StoredFile, now: int,
                     initWriteOk: bool, saveWriteOk: bool)
    returns (r: SaveResult)
    ensures !ValidAlias(alias) ==> r == Failed(InvalidAlias)
    ensures ValidAlias(alias) && cwd.None? ==> r == Failed(NoWorkingDirectory)
    ensures ValidAlias(alias) && cwd.Some? ==>
              && (file.Unreadable? ==> r == Failed(StorageInit(IOError)))
              && (file.Malformed? ==> r == Failed(StorageInit(ParseError)))
              && (file.Missing? && !initWriteOk ==> r == Failed(StorageInit(IOError)))
              && (file.Missing? && initWriteOk && !saveWriteOk ==> r == Failed(SaveFailed(IOError)))
              && (file.Stored? && !saveWriteOk ==> r == Failed(SaveFailed(IOError)))
              && (file.Missing? && initWriteOk && saveWriteOk ==> r.Saved?)
              && (file.Stored? && saveWriteOk ==> r.Saved?)
    ensures r.Saved? ==>
              && fresh(r.store)
              && cwd.Some? && ValidAlias(alias)
              && r.store.bookmarks.Keys == LoadedBookmarks(file).Keys + {alias}
              && r.store.bookmarks[alias].path == cwd.value
              && (forall a :: a in LoadedBookmarks(file) && a != alias ==>
                    r.store.bookmarks[a] == LoadedBookmarks(file)[a])
              && r.store.persisted == r.store.Data()
              && (AllAliasesValid(LoadedBookmarks(file)) ==> AllAliasesValid(r.store.bookmarks))
  {
    var valid := IsValidAlias(alias);
    if !valid {
      return Failed(InvalidAlias);
    }

    if cwd.None? {
      return Failed(NoWorkingDirectory);
    }
    var currentDir := cwd.value;

    var loaded := NewStore(file, initWriteOk);
    if loaded.Failure? {
      return Failed(StorageInit(loaded.error));
    }
    var store := loaded.value;

    var outcome := store.SaveBookmark(alias, currentDir, now, saveWriteOk);
    if outcome.Fail? {
      return Failed(SaveFailed(outcome.error));
    }
    return Saved(store);
  }
}
