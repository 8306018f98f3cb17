/**
 * The storage logic inside LockBox.java, the Swing window: the recent-files
 * preference, the `.lbx` extension, and the edits and re-keying the window
 * performs on its PasswordManager.
 */
module LockBoxApp {
  import opened Text
  import opened Results
  import opened Accounts
  import opened Crypto
  import opened Store

  // ================================================================ file extension

  const FileExtension: string := "lbx"

  /** "." + FILE_EXTENSION */
  const DotExtension: string := "." + FileExtension

  /**
   * The save dialogs' normalisation: append ".lbx" unless the lower-cased
   * path already ends with it. The result always ends with the extension,
   * ignoring case, and a path that already does is returned unchanged.
   */
  function WithExtension(filePath: string): (r: string)
    ensures EndsWith(ToLower(r), DotExtension)
    ensures EndsWith(ToLower(filePath), DotExtension) ==> r == filePath
    ensures !EndsWith(ToLower(filePath), DotExtension) ==> r == filePath + DotExtension
  {
    if EndsWith(ToLower(filePath), DotExtension) then
      filePath
    else
      ToLowerAppend(filePath, DotExtension);
      assert ToLower(DotExtension) == DotExtension;
      assert (ToLower(filePath) + DotExtension)[|ToLower(filePath)|..] == DotExtension;
      filePath + DotExtension
  }

  /** Normalising twice is normalising once. */
  lemma WithExtensionIdempotent(filePath: string)
    ensures WithExtension(WithExtension(filePath)) == WithExtension(filePath)
  {
  }

  // ================================================================ recent files

  const RecentSeparator: char := '|'
  const MaxOlderRecent: nat := 4

  /**
   * getRecentFiles: nothing for an empty preference, otherwise the value split
   * on '|' with trailing empty strings dropped (String.split, limit 0).
   */
  function GetRecentFiles(stored: string): (files: seq<string>)
    ensures stored == "" ==> files == []
    ensures stored != "" ==> files == DropTrailingEmpty(Split(stored, RecentSeparator))
    ensures forall f :: f in files ==> RecentSeparator !in f
    ensures files == [] || files[|files| - 1] != ""
  {
    if stored == "" then [] else DropTrailingEmpty(Split(stored, RecentSeparator))
  }

  /** Reading back a stored list: '|'-free entries ending in a non-empty one come back unchanged. */
  lemma GetRecentFilesJoin(files: seq<string>)
    requires files != [] && files[|files| - 1] != ""
    requires forall f :: f in files ==> RecentSeparator !in f
    ensures GetRecentFiles(Join(files, RecentSeparator)) == files
  {
    JoinEndsWithLast(files, RecentSeparator);
    assert forall i :: 0 <= i < |files| ==> files[i] in files;
    SplitJoin(files, RecentSeparator);
  }

  lemma {:induction false} JoinEndsWithLast(parts: seq<string>, d: char)
    requires parts != []
    ensures EndsWith(Join(parts, d), parts[|parts| - 1])
  {
    if |parts| > 1 {
      JoinEndsWithLast(parts[1..], d);
      var tail := Join(parts[1..], d);
      var whole := parts[0] + [d] + tail;
      assert whole[|whole| - |tail|..] == tail;
    }
  }

  /** An older entry addRecentFile may keep: non-empty, not the file being added, and still on disk. */
  predicate Keepable(entry: string, filePath: string, fileExists: string -> bool)
  {
    entry != "" && entry != filePath && fileExists(entry)
  }

  /** The keepable entries of `entries`, in their order. */
  function KeepableEntries(entries: seq<string>, filePath: string, fileExists: string -> bool): (r: seq<string>)
    ensures |r| <= |entries|
    ensures forall e :: e in r <==> e in entries && Keepable(e, filePath, fileExists)
  {
    if entries == [] then []
    else
      var init, last := entries[..|entries| - 1], entries[|entries| - 1];
      assert entries == init + [last];
      KeepableEntries(init, filePath, fileExists) + (if Keepable(last, filePath, fileExists) then [last] else [])
  }

  /** At most the first `n` elements. */
  function Take<T>(s: seq<T>, n: nat): (r: seq<T>)
    ensures |r| <= n && |r| <= |s| && r == s[..|r|]
    ensures |r| < n ==> r == s
  {
    if |s| <= n then s else s[..n]
  }

  /** The older entries addRecentFile keeps: the first four keepable ones, in stored order. */
  function KeptOlder(entries: seq<string>, filePath: string, fileExists: string -> bool): seq<string>
  {
    Take(KeepableEntries(entries, filePath, fileExists), MaxOlderRecent)
  }

  /** The preference value for a new path followed by older entries. */
  function RecentLine(filePath: string, older: seq<string>): string
  {
    Join([filePath] + older, RecentSeparator)
  }

  lemma RecentLineSnoc(filePath: string, older: seq<string>, e: string)
    ensures RecentLine(filePath, older + [e]) == RecentLine(filePath, older) + [RecentSeparator] + e
  {
    JoinSnoc([filePath] + older, e, RecentSeparator);
    assert [filePath] + older + [e] == [filePath] + (older + [e]);
  }

  /** The preference value after addRecentFile(filePath). */
  function RecentAfterAdd(stored: string, filePath: string, fileExists: string -> bool): string
  {
    if !fileExists(filePath) then stored
    else RecentLine(filePath, KeptOlder(GetRecentFiles(stored), filePath, fileExists))
  }

  /**
   * The older entries kept are at most four, each keepable and from the old
   * list; fewer than four are kept only when no keepable entry is left out.
   */
  lemma KeptOlderFacts(entries: seq<string>, filePath: string, fileExists: string -> bool)
    ensures var kept := KeptOlder(entries, filePath, fileExists);
      && |kept| <= MaxOlderRecent
      && (forall f :: f in kept ==> f in entries && Keepable(f, filePath, fileExists))
      && (|kept| < MaxOlderRecent ==> forall f :: f in entries && Keepable(f, filePath, fileExists) ==> f in kept)
  {
    var keepable := KeepableEntries(entries, filePath, fileExists);
    var kept := KeptOlder(entries, filePath, fileExists);
    forall f | f in kept
      ensures f in keepable
    {
      var j :| 0 <= j < |kept| && kept[j] == f;
      assert keepable[j] == f;
    }
  }

  /**
   * The list addRecentFile stores, as getRecentFiles reads it back: the new
   * path first, then at most four older entries, each of them non-empty,
   * different from the new path, still existing and taken from the old list;
   * when fewer than four are kept, every keepable older entry is kept.
   */
  lemma RecentAfterAddReadBack(stored: string, filePath: string, fileExists: string -> bool)
    requires fileExists(filePath) && filePath != "" && RecentSeparator !in filePath
    ensures var files := GetRecentFiles(RecentAfterAdd(stored, filePath, fileExists));
      && 1 <= |files| <= 1 + MaxOlderRecent
      && files[0] == filePath
      && files[1..] == KeptOlder(GetRecentFiles(stored), filePath, fileExists)
      && filePath !in files[1..]
      && (forall f :: f in files[1..] ==> f in GetRecentFiles(stored) && f != "" && fileExists(f))
      && (|files| < 1 + MaxOlderRecent ==>
            forall f :: f in GetRecentFiles(stored) && Keepable(f, filePath, fileExists) ==> f in files[1..])
  {
    var olderList := GetRecentFiles(stored);
    var kept := KeptOlder(olderList, filePath, fileExists);
    KeptOlderFacts(olderList, filePath, fileExists);
    var files := [filePath] + kept;
    assert files[1..] == kept;
    assert files[|files| - 1] != "" by {
      if kept != [] {
        assert kept[|kept| - 1] in kept;
      }
    }
    GetRecentFilesJoin(files);
  }

  /** A path that does not exist leaves the preference as it was. */
  lemma RecentAfterAddMissing(stored: string, filePath: string, fileExists: string -> bool)
    requires !fileExists(filePath)
    ensures RecentAfterAdd(stored, filePath, fileExists) == stored
  {
  }

  lemma KeptOlderSnoc(entries: seq<string>, e: string, filePath: string, fileExists: string -> bool)
    ensures var before := KeptOlder(entries, filePath, fileExists);
      KeptOlder(entries + [e], filePath, fileExists)
        == if |before| < MaxOlderRecent && Keepable(e, filePath, fileExists) then before + [e] else before
  {
    var all := entries + [e];
    assert all[..|all| - 1] == entries && all[|all| - 1] == e;
    var k := KeepableEntries(entries, filePath, fileExists);
    if |k| >= MaxOlderRecent && Keepable(e, filePath, fileExists) {
      assert (k + [e])[..MaxOlderRecent] == k[..MaxOlderRecent];
    }
  }

  /** One pass of addRecentFile's loop: the entry is appended exactly when KeptOlder takes it. */
  lemma AddRecentStep(recent: seq<string>, i: nat, filePath: string, fileExists: string -> bool)
    requires i < |recent|
    ensures var kept := KeptOlder(recent[..i], filePath, fileExists);
      var e := recent[i];
      var taken := e != "" && e != filePath && |kept| < MaxOlderRecent && fileExists(e);
      && KeptOlder(recent[..i + 1], filePath, fileExists) == (if taken then kept + [e] else kept)
      && RecentLine(filePath, KeptOlder(recent[..i + 1], filePath, fileExists))
         == (if taken then RecentLine(filePath, kept) + [RecentSeparator] + e else RecentLine(filePath, kept))
  {
    var kept := KeptOlder(recent[..i], filePath, fileExists);
    assert recent[..i + 1] == recent[..i] + [recent[i]];
    KeptOlderSnoc(recent[..i], recent[i], filePath, fileExists);
    RecentLineSnoc(filePath, kept, recent[i]);
  }

  // ================================================================ the account list the window shows

  /**
   * refreshAccountList's list model: every account when the lower-cased
   * search text is empty, otherwise those matching it.
   */
  function AccountListModel(accounts: seq<Account>, searchText: string): (view: seq<Account>)
    ensures view == Matching(accounts, searchText)
  {
    var lowerSearchText := ToLower(searchText);
    ToLowerIdempotent(searchText);
    MatchingLowerTerm(accounts, searchText);
    if lowerSearchText == "" then
      EmptyTermMatchesAll(accounts);
      accounts
    else
      Matching(accounts, lowerSearchText)
  }

  lemma {:induction false} MatchingLowerTerm(accounts: seq<Account>, term: string)
    ensures Matching(accounts, ToLower(term)) == Matching(accounts, term)
  {
    ToLowerIdempotent(term);
    if accounts != [] {
      MatchingLowerTerm(accounts[..|accounts| - 1], term);
    }
  }

  /** Positions in `accounts` of the accounts the filtered list shows, in order. */
  function ViewPositions(accounts: seq<Account>, term: string): (ps: seq<nat>)
    ensures ShownPositions(accounts, term, ps)
  {
    if accounts == [] then []
    else
      var n := |accounts| - 1;
      var before := ViewPositions(accounts[..n], term);
      ShownPositionsSnoc(accounts, term, before);
      before + (if Matches(accounts[n], term) then [n] else [])
  }

  /**
   * `ps` holds, row by row, the position in `accounts` of the account the
   * filtered list shows: a matching account with exactly `k` matches before
   * it for row `k`.
   */
  predicate ShownPositions(accounts: seq<Account>, term: string, ps: seq<nat>)
  {
    && |ps| == |Matching(accounts, term)|
    && forall k :: 0 <= k < |ps| ==>
      && ps[k] < |accounts|
      && accounts[ps[k]] == Matching(accounts, term)[k]
      && Matches(accounts[ps[k]], term)
      && |Matching(accounts[..ps[k]], term)| == k
  }

  lemma ShownPositionsSnoc(accounts: seq<Account>, term: string, before: seq<nat>)
    requires accounts != [] && ShownPositions(accounts[..|accounts| - 1], term, before)
    ensures var n := |accounts| - 1;
      ShownPositions(accounts, term, before + (if Matches(accounts[n], term) then [n] else []))
  {
    var n := |accounts| - 1;
    var init := accounts[..n];
    var ps := before + (if Matches(accounts[n], term) then [n] else []);
    var view := Matching(accounts, term);
    assert view == Matching(init, term) + (if Matches(accounts[n], term) then [accounts[n]] else []);
    forall k | 0 <= k < |ps|
      ensures ps[k] < |accounts| && accounts[ps[k]] == view[k] && Matches(accounts[ps[k]], term)
      ensures |Matching(accounts[..ps[k]], term)| == k
    {
      if k < |before| {
        assert ps[k] == before[k] && accounts[before[k]] == init[before[k]];
        assert accounts[..before[k]] == init[..before[k]];
      } else {
        assert ps[k] == n && accounts[..n] == init;
      }
    }
  }

  /**
   * At most one matching position has exactly `k` matches before it, so a
   * row index names one position even when equal accounts are listed twice.
   */
  lemma ShownPositionUnique(accounts: seq<Account>, term: string, p: nat, q: nat)
    requires p < |accounts| && q < |accounts|
    requires Matches(accounts[p], term) && Matches(accounts[q], term)
    requires |Matching(accounts[..p], term)| == |Matching(accounts[..q], term)|
    ensures p == q
  {
    if p < q {
      MatchCountGrows(accounts, term, p, q);
    } else if q < p {
      MatchCountGrows(accounts, term, q, p);
    }
  }

  /** A matching account at `lo` adds one to the count of matches before any later position. */
  lemma MatchCountGrows(accounts: seq<Account>, term: string, lo: nat, hi: nat)
    requires lo < hi <= |accounts| && Matches(accounts[lo], term)
    ensures |Matching(accounts[..lo], term)| < |Matching(accounts[..hi], term)|
  {
    var a, b := accounts[..lo], accounts[lo..hi];
    assert accounts[..hi] == a + b;
    MatchingAppend(a, b, term);
    assert b[0] in b;
    assert b[0] in Matching(b, term);
  }

  lemma {:induction false} UnfilteredPositions(accounts: seq<Account>)
    ensures |ViewPositions(accounts, "")| == |accounts|
    ensures forall i :: 0 <= i < |accounts| ==> ViewPositions(accounts, "")[i] == i
  {
    if accounts != [] {
      var init := accounts[..|accounts| - 1];
      UnfilteredPositions(init);
      ContainsEmpty(ToLower(accounts[|accounts| - 1].website));
      assert Matches(accounts[|accounts| - 1], "");
      assert ViewPositions(accounts, "") == ViewPositions(init, "") + [|accounts| - 1];
    }
  }

  /** updateAccount as written: the list index is applied to the full account list. */
  function AccountsAfterUpdate(accounts: seq<Account>, selectedIndex: int, account: Account): (r: seq<Account>)
    requires -1 <= selectedIndex < |accounts|
    ensures selectedIndex == -1 ==> r == accounts + [account]
    ensures selectedIndex != -1 ==> |r| == |accounts| && r[selectedIndex] == account
    ensures selectedIndex != -1 ==> forall i :: 0 <= i < |r| && i != selectedIndex ==> r[i] == accounts[i]
  {
    if selectedIndex != -1 then accounts[selectedIndex := account] else accounts + [account]
  }

  /** deleteAccount as written: the list index is applied to the full account list. */
  function AccountsAfterDelete(accounts: seq<Account>, selectedIndex: nat): (r: seq<Account>)
    requires selectedIndex < |accounts|
    ensures |r| == |accounts| - 1
    ensures forall i :: 0 <= i < selectedIndex ==> r[i] == accounts[i]
    ensures forall i :: selectedIndex <= i < |r| ==> r[i] == accounts[i + 1]
  {
    accounts[..selectedIndex] + accounts[selectedIndex + 1..]
  }

  /**
   * With a search filter in place the index of the selected row is not the
   * account's index in the full list: selecting "b.com", the only row shown
   * for the filter "b", and saving it overwrites "a.com" instead; deleting it
   * removes "a.com".
   */
  lemma SelectedIndexMismatch()
    ensures var a := Account("a.com", "ann", "x");
      var b := Account("b.com", "bob", "y");
      var edited := Account("b.com", "bob", "z");
      && AccountListModel([a, b], "b") == [b]
      && AccountsAfterUpdate([a, b], 0, edited) == [edited, b]
      && AccountsAfterDelete([a, b], 0) == [b]
  {
    var a := Account("a.com", "ann", "x");
    var b := Account("b.com", "bob", "y");
    NotMatchingExample();
    MatchingExample();
    assert [a, b][..1] == [a];
    assert [a][..0] == [];
  }

  lemma NotMatchingExample()
    ensures !Matches(Account("a.com", "ann", "x"), "b")
  {
    ContainsSingle("a.com", 'b');
    ContainsSingle("ann", 'b');
    assert ToLower("a.com") == "a.com";
    assert ToLower("ann") == "ann";
    assert ToLower("b") == "b";
  }

  lemma MatchingExample()
    ensures Matches(Account("b.com", "bob", "y"), "b")
  {
    assert ToLower("b.com") == "b.com";
    assert ToLower("b") == "b";
    assert StartsWith("b.com"[0..], "b");
  }

  lemma ContainsSingle(s: string, c: char)
    ensures Contains(s, [c]) ==> c in s
  {
    if Contains(s, [c]) {
      var i :| 0 <= i <= |s| && StartsWith(s[i..], [c]);
      assert s[i] == c;
    }
  }

  /**
   * The intended edit: the row index is mapped to the position of the shown
   * account, and exactly that account is replaced; -1 appends.
   */
  function UpdateSelected(accounts: seq<Account>, searchText: string, selectedIndex: int, account: Account): (r: seq<Account>)
    requires -1 <= selectedIndex < |Matching(accounts, searchText)|
    ensures selectedIndex == -1 ==> r == accounts + [account]
    ensures selectedIndex != -1 ==> exists p ::
      && 0 <= p < |accounts|
      && accounts[p] == Matching(accounts, searchText)[selectedIndex]
      && Matches(accounts[p], searchText)
      && |Matching(accounts[..p], searchText)| == selectedIndex
      && r == accounts[p := account]
  {
    if selectedIndex == -1 then accounts + [account]
    else
      var ps := ViewPositions(accounts, searchText);
      var p := ps[selectedIndex];
      assert p < |accounts| && Matches(accounts[p], searchText);
      accounts[p := account]
  }

  /** The intended delete: removes exactly the shown account the row index selects. */
  function DeleteSelected(accounts: seq<Account>, searchText: string, selectedIndex: nat): (r: seq<Account>)
    requires selectedIndex < |Matching(accounts, searchText)|
    ensures exists p ::
      && 0 <= p < |accounts|
      && accounts[p] == Matching(accounts, searchText)[selectedIndex]
      && Matches(accounts[p], searchText)
      && |Matching(accounts[..p], searchText)| == selectedIndex
      && r == accounts[..p] + accounts[p + 1..]
  {
    var ps := ViewPositions(accounts, searchText);
    var p := ps[selectedIndex];
    assert p < |accounts| && Matches(accounts[p], searchText);
    accounts[..p] + accounts[p + 1..]
  }

  /** Without a search filter the code as written does what was intended. */
  lemma UnfilteredEditsAgree(accounts: seq<Account>, selectedIndex: int, account: Account)
    requires -1 <= selectedIndex < |accounts|
    ensures Matching(accounts, "") == accounts
    ensures UpdateSelected(accounts, "", selectedIndex, account) == AccountsAfterUpdate(accounts, selectedIndex, account)
    ensures selectedIndex >= 0 ==> DeleteSelected(accounts, "", selectedIndex) == AccountsAfterDelete(accounts, selectedIndex)
  {
    EmptyTermMatchesAll(accounts);
    if selectedIndex >= 0 {
      UnfilteredUpdate(accounts, selectedIndex, account);
      UnfilteredDelete(accounts, selectedIndex);
    }
  }

  lemma UnfilteredUpdate(accounts: seq<Account>, i: nat, account: Account)
    requires i < |accounts|
    ensures i < |Matching(accounts, "")| && UpdateSelected(accounts, "", i, account) == accounts[i := account]
  {
    UnfilteredRow(accounts, i);
  }

  lemma UnfilteredDelete(accounts: seq<Account>, i: nat)
    requires i < |accounts|
    ensures i < |Matching(accounts, "")| && DeleteSelected(accounts, "", i) == accounts[..i] + accounts[i + 1..]
  {
    UnfilteredRow(accounts, i);
  }

  /** Without a filter, row `i` is position `i`. */
  lemma UnfilteredRow(accounts: seq<Account>, i: nat)
    requires i < |accounts|
    ensures i < |Matching(accounts, "")| && ViewPositions(accounts, "")[i] == i
  {
    UnfilteredPositions(accounts);
  }

  // ================================================================ the window

  /** updateAccount's check: the trimmed website, the trimmed username or the password is empty. */
  predicate FieldMissing(websiteText: string, usernameText: string, password: string)
  {
    Trim(websiteText) == "" || Trim(usernameText) == "" || password == ""
  }

  /** The account updateAccount builds from the detail fields: website and username trimmed. */
  function EditedAccount(websiteText: string, usernameText: string, password: string): Account
  {
    Account(Trim(websiteText), Trim(usernameText), password)
  }

  /**
   * What updateAccount ends in. SelectionOutOfRange is the
   * IndexOutOfBoundsException `set` throws when the shown list is longer than
   * the account list (left so by an open that failed after the manager was
   * replaced); the accounts are then unchanged.
   */
  datatype EditOutcome = AllFieldsRequired | AccountUpdated | NewAccountAdded | SelectionOutOfRange
  /** What deleteAccount ends in; DeleteOutOfRange is the exception `remove` throws, as above. */
  datatype DeleteOutcome = NoSelection | DeleteNotConfirmed | AccountDeleted | DeleteOutOfRange
  datatype ChangeOutcome = NewPasswordEmpty | NewPasswordsDoNotMatch | MasterPasswordChanged

  class LockBox {
    var manager: PasswordManager
    /** The "recentFiles" entry of the user preferences. */
    var recentFiles: string
    /** The text of the search field that filters the account list. */
    var searchText: string

    constructor (manager: PasswordManager, recentFiles: string, searchText: string)
      ensures this.manager == manager && this.recentFiles == recentFiles && this.searchText == searchText
    {
      this.manager := manager;
      this.recentFiles := recentFiles;
      this.searchText := searchText;
    }

    /**
     * addRecentFile: nothing happens unless the file exists; otherwise the
     * preference becomes the path followed by up to four older existing
     * entries other than the path itself, joined with '|'.
     */
    method AddRecentFile(filePath: string, fileExists: string -> bool)
      modifies this`recentFiles
      ensures recentFiles == RecentAfterAdd(old(recentFiles), filePath, fileExists)
    {
      if !fileExists(filePath) {
        return;
      }
      var recent := GetRecentFiles(recentFiles);
      var newRecentFiles := filePath;
      var count := 0;
      for i := 0 to |recent|
        invariant count == |KeptOlder(recent[..i], filePath, fileExists)|
        invariant newRecentFiles == RecentLine(filePath, KeptOlder(recent[..i], filePath, fileExists))
      {
        var existingFile := recent[i];
        AddRecentStep(recent, i, filePath, fileExists);
        if existingFile != "" && existingFile != filePath && count < MaxOlderRecent {
          if fileExists(existingFile) {
            newRecentFiles := newRecentFiles + [RecentSeparator] + existingFile;
            count := count + 1;
          }
        }
      }
      assert recent[..|recent|] == recent;
      recentFiles := newRecentFiles;
    }

    /**
     * updateAccount: the trimmed website and username and the password must
     * all be non-empty, otherwise nothing changes; then the account replaces
     * the element at the selected row's index, or is appended when no row is
     * selected. The row index comes from the filtered list but is applied to
     * the full list, as the code does; an index past its end changes nothing.
     */
    method UpdateAccount(websiteText: string, usernameText: string, password: string, selectedIndex: int)
      returns (outcome: EditOutcome)
      requires -1 <= selectedIndex
      modifies manager
      ensures outcome == AllFieldsRequired <==> FieldMissing(websiteText, usernameText, password)
      ensures outcome == SelectionOutOfRange <==>
        !FieldMissing(websiteText, usernameText, password) && selectedIndex >= |old(manager.accounts)|
      ensures outcome == AccountUpdated <==>
        !FieldMissing(websiteText, usernameText, password) && 0 <= selectedIndex < |old(manager.accounts)|
      ensures outcome == NewAccountAdded <==> !FieldMissing(websiteText, usernameText, password) && selectedIndex == -1
      ensures outcome == AllFieldsRequired || outcome == SelectionOutOfRange ==> manager.accounts == old(manager.accounts)
      ensures outcome == AccountUpdated || outcome == NewAccountAdded ==>
        manager.accounts == AccountsAfterUpdate(old(manager.accounts), selectedIndex,
                                                EditedAccount(websiteText, usernameText, password))
    {
      if FieldMissing(websiteText, usernameText, password) {
        return AllFieldsRequired;
      }
      outcome := StoreEdit(EditedAccount(websiteText, usernameText, password), selectedIndex);
    }

    /** The second half of updateAccount: the edited account replaces the selected element or is appended. */
    method StoreEdit(account: Account, selectedIndex: int) returns (outcome: EditOutcome)
      requires -1 <= selectedIndex
      modifies manager
      ensures outcome == SelectionOutOfRange <==> selectedIndex >= |old(manager.accounts)|
      ensures outcome == AccountUpdated <==> 0 <= selectedIndex < |old(manager.accounts)|
      ensures outcome == NewAccountAdded <==> selectedIndex == -1
      ensures outcome == SelectionOutOfRange ==> manager.accounts == old(manager.accounts)
      ensures outcome != SelectionOutOfRange ==>
        manager.accounts == AccountsAfterUpdate(old(manager.accounts), selectedIndex, account)
    {
      if selectedIndex == -1 {
        manager.AddAccount(account);
        return NewAccountAdded;
      }
      if selectedIndex >= |manager.accounts| {
        return SelectionOutOfRange;
      }
      manager.accounts := manager.accounts[selectedIndex := account];
      outcome := AccountUpdated;
    }

    /**
     * deleteAccount: with a row selected and the deletion confirmed, the
     * element at the row's index is removed from the full list, as the code
     * does; otherwise, or when that index is past the end, nothing changes.
     */
    method DeleteAccount(selectedIndex: int, confirmed: bool) returns (outcome: DeleteOutcome)
      requires -1 <= selectedIndex
      modifies manager
      ensures outcome == NoSelection <==> selectedIndex == -1
      ensures outcome == DeleteNotConfirmed <==> selectedIndex != -1 && !confirmed
      ensures outcome == DeleteOutOfRange <==> confirmed && selectedIndex >= |old(manager.accounts)|
      ensures outcome == AccountDeleted <==> confirmed && 0 <= selectedIndex < |old(manager.accounts)|
      ensures outcome != AccountDeleted ==> manager.accounts == old(manager.accounts)
      ensures outcome == AccountDeleted ==> manager.accounts == AccountsAfterDelete(old(manager.accounts), selectedIndex)
    {
      if selectedIndex == -1 {
        return NoSelection;
      }
      if !confirmed {
        return DeleteNotConfirmed;
      }
      if selectedIndex >= |manager.accounts| {
        return DeleteOutOfRange;
      }
      manager.accounts := manager.accounts[..selectedIndex] + manager.accounts[selectedIndex + 1..];
      outcome := AccountDeleted;
    }

    /**
     * changeMasterPassword: an empty or unconfirmed new password changes
     * nothing; otherwise a new manager bound to the new password receives the
     * old manager's accounts in order. The current password is not checked.
     */
    method ChangeMasterPassword(currentPassword: string, newPassword: string, confirmPassword: string)
      returns (outcome: ChangeOutcome)
      modifies this
      ensures outcome == NewPasswordEmpty <==> newPassword == ""
      ensures outcome == NewPasswordsDoNotMatch <==> newPassword != "" && newPassword != confirmPassword
      ensures outcome != MasterPasswordChanged ==> manager == old(manager)
      ensures outcome == MasterPasswordChanged ==>
        && fresh(manager)
        && manager.accounts == old(manager.accounts)
        && manager.masterPassword == newPassword
        && manager.prims == old(manager.prims)
        && manager.key == DerivedKey(old(manager.prims), newPassword)
      ensures recentFiles == old(recentFiles) && searchText == old(searchText)
    {
      if newPassword == "" {
        return NewPasswordEmpty;
      }
      if newPassword != confirmPassword {
        return NewPasswordsDoNotMatch;
      }
      var accounts := manager.accounts;
      var fresh_ := new PasswordManager(newPassword, manager.prims);
      for i := 0 to |accounts|
        invariant fresh_.accounts == accounts[..i]
        invariant manager == old(manager) && recentFiles == old(recentFiles) && searchText == old(searchText)
      {
        fresh_.AddAccount(accounts[i]);
        assert accounts[..i + 1] == accounts[..i] + [accounts[i]];
      }
      assert accounts[..|accounts|] == accounts;
      manager := fresh_;
      outcome := MasterPasswordChanged;
    }
  }
}
