/**
 * PasswordManager.java: the in-memory credential list, its stable sort by
 * website, search, password generation, and the line loops of save and load.
 */
module Store {
  import opened Text
  import opened Results
  import opened Accounts
  import opened Crypto

  // ================================================================ ordering by website

  /** String.compareTo's order: character codes left to right, a proper prefix first. */
  predicate LexLe(x: string, y: string)
  {
    if x == [] then true
    else if y == [] then false
    else if x[0] != y[0] then x[0] < y[0]
    else LexLe(x[1..], y[1..])
  }

  lemma {:induction false} LexLeTotal(x: string, y: string)
    ensures LexLe(x, y) || LexLe(y, x)
  {
    if x != [] && y != [] && x[0] == y[0] {
      LexLeTotal(x[1..], y[1..]);
    }
  }

  lemma {:induction false} LexLeTransitive(x: string, y: string, z: string)
    requires LexLe(x, y) && LexLe(y, z)
    ensures LexLe(x, z)
  {
    if x != [] && y != [] && z != [] && x[0] == y[0] == z[0] {
      LexLeTransitive(x[1..], y[1..], z[1..]);
    }
  }

  /**
   * String.CASE_INSENSITIVE_ORDER compares characters after case folding; on
   * ASCII that is the code order of the lower-cased strings.
   */
  function SortKey(a: Account): string
  {
    ToLower(a.website)
  }

  predicate WebsiteLe(a: Account, b: Account)
  {
    LexLe(SortKey(a), SortKey(b))
  }

  ghost predicate SortedByWebsite(s: seq<Account>)
  {
    forall i, j :: 0 <= i < j < |s| ==> WebsiteLe(s[i], s[j])
  }

  /** The elements of `s` whose sort key is `k`, in their order in `s`. */
  function WithKey(s: seq<Account>, k: string): seq<Account>
  {
    if s == [] then []
    else (if SortKey(s[0]) == k then [s[0]] else []) + WithKey(s[1..], k)
  }

  lemma {:induction false} WithKeyAppend(a: seq<Account>, b: seq<Account>, k: string)
    ensures WithKey(a + b, k) == WithKey(a, k) + WithKey(b, k)
  {
    if a == [] {
      assert a + b == b;
    } else {
      assert (a + b)[0] == a[0];
      assert (a + b)[1..] == a[1..] + b;
      WithKeyAppend(a[1..], b, k);
    }
  }

  lemma {:induction false} WithKeyAbsent(s: seq<Account>, k: string)
    requires forall i :: 0 <= i < |s| ==> SortKey(s[i]) != k
    ensures WithKey(s, k) == []
  {
    if s != [] {
      WithKeyAbsent(s[1..], k);
    }
  }

  /** Inserts `x` after every element whose website does not sort strictly after it. */
  function Insert(x: Account, s: seq<Account>): (r: seq<Account>)
    ensures multiset(r) == multiset(s) + multiset{x}
  {
    if s == [] then [x]
    else if !WebsiteLe(s[0], x) then [x] + s
    else
      assert s == [s[0]] + s[1..];
      [s[0]] + Insert(x, s[1..])
  }

  /**
   * The list Collections.sort leaves behind with the website comparator: an
   * insertion sort, which like the library's merge sort is stable. It holds
   * the same accounts, each as often as before.
   */
  function SortByWebsite(s: seq<Account>): (sorted: seq<Account>)
    ensures multiset(sorted) == multiset(s)
  {
    if s == [] then []
    else
      assert s == s[..|s| - 1] + [s[|s| - 1]];
      Insert(s[|s| - 1], SortByWebsite(s[..|s| - 1]))
  }

  lemma {:induction false} LexLeReflexive(x: string)
    ensures LexLe(x, x)
  {
    if x != [] {
      LexLeReflexive(x[1..]);
    }
  }

  lemma SortedTail(s: seq<Account>)
    requires SortedByWebsite(s) && s != []
    ensures SortedByWebsite(s[1..])
  {
    assert forall i :: 0 <= i < |s| - 1 ==> s[1..][i] == s[i + 1];
  }

  lemma PrependSorted(x: Account, s: seq<Account>)
    requires SortedByWebsite(s)
    requires forall j :: 0 <= j < |s| ==> WebsiteLe(x, s[j])
    ensures SortedByWebsite([x] + s)
  {
    var r := [x] + s;
    forall i, j | 0 <= i < j < |r|
      ensures WebsiteLe(r[i], r[j])
    {
      assert r[j] == s[j - 1];
      if i > 0 {
        assert r[i] == s[i - 1];
      }
    }
  }

  lemma {:induction false} InsertSorted(x: Account, s: seq<Account>)
    requires SortedByWebsite(s)
    ensures SortedByWebsite(Insert(x, s))
  {
    if s == [] {
    } else if !WebsiteLe(s[0], x) {
      LexLeTotal(SortKey(s[0]), SortKey(x));
      forall j | 0 <= j < |s|
        ensures WebsiteLe(x, s[j])
      {
        if j > 0 {
          LexLeTransitive(SortKey(x), SortKey(s[0]), SortKey(s[j]));
        }
      }
      PrependSorted(x, s);
    } else {
      var rest := Insert(x, s[1..]);
      SortedTail(s);
      InsertSorted(x, s[1..]);
      forall j | 0 <= j < |rest|
        ensures WebsiteLe(s[0], rest[j])
      {
        var e := rest[j];
        assert e in multiset(rest);
        if e != x {
          assert e in multiset(s[1..]);
          var m :| 0 <= m < |s[1..]| && s[1..][m] == e;
          assert s[m + 1] == e;
        }
      }
      PrependSorted(s[0], rest);
    }
  }

  /** In a sorted list whose head sorts strictly after `x`, no element shares `x`'s key. */
  lemma KeyAbsentAfter(x: Account, s: seq<Account>)
    requires SortedByWebsite(s) && s != [] && !WebsiteLe(s[0], x)
    ensures WithKey(s, SortKey(x)) == []
  {
    forall i | 0 <= i < |s|
      ensures SortKey(s[i]) != SortKey(x)
    {
      if i == 0 {
        LexLeReflexive(SortKey(x));
      } else {
        assert WebsiteLe(s[0], s[i]);
      }
    }
    WithKeyAbsent(s, SortKey(x));
  }

  lemma WithKeySingle(x: Account, k: string)
    ensures WithKey([x], k) == if SortKey(x) == k then [x] else []
  {
    assert [x][1..] == [];
  }

  lemma {:induction false} InsertWithKey(x: Account, s: seq<Account>, k: string)
    requires SortedByWebsite(s)
    ensures WithKey(Insert(x, s), k) == WithKey(s, k) + WithKey([x], k)
  {
    if s == [] {
      WithKeySingle(x, k);
      assert Insert(x, s) == [x];
    } else if !WebsiteLe(s[0], x) {
      InsertFrontWithKey(x, s, k);
    } else {
      SortedTail(s);
      InsertWithKey(x, s[1..], k);
      InsertLaterWithKey(x, s, k);
    }
  }

  lemma InsertFrontWithKey(x: Account, s: seq<Account>, k: string)
    requires SortedByWebsite(s) && s != [] && !WebsiteLe(s[0], x)
    ensures WithKey(Insert(x, s), k) == WithKey(s, k) + WithKey([x], k)
  {
    WithKeySingle(x, k);
    assert Insert(x, s) == [x] + s;
    WithKeyAppend([x], s, k);
    if SortKey(x) == k {
      KeyAbsentAfter(x, s);
    }
  }

  lemma InsertLaterWithKey(x: Account, s: seq<Account>, k: string)
    requires s != [] && WebsiteLe(s[0], x)
    requires WithKey(Insert(x, s[1..]), k) == WithKey(s[1..], k) + WithKey([x], k)
    ensures WithKey(Insert(x, s), k) == WithKey(s, k) + WithKey([x], k)
  {
    InsertPastHead(x, s);
    ConsWithKey(s[0], Insert(x, s[1..]), s[1..], [x], k);
    assert [s[0]] + s[1..] == s;
  }

  /** Putting the same account in front of two lists keeps an equation between their keyed elements. */
  lemma ConsWithKey(a: Account, r: seq<Account>, t: seq<Account>, u: seq<Account>, k: string)
    requires WithKey(r, k) == WithKey(t, k) + WithKey(u, k)
    ensures WithKey([a] + r, k) == WithKey([a] + t, k) + WithKey(u, k)
  {
    WithKeyCons(a, r, k);
    WithKeyCons(a, t, k);
  }

  lemma InsertPastHead(x: Account, s: seq<Account>)
    requires s != [] && WebsiteLe(s[0], x)
    ensures Insert(x, s) == [s[0]] + Insert(x, s[1..])
  {
  }

  lemma WithKeyCons(a: Account, t: seq<Account>, k: string)
    ensures WithKey([a] + t, k) == (if SortKey(a) == k then [a] else []) + WithKey(t, k)
  {
    assert ([a] + t)[1..] == t;
  }

  /** The sorted list is non-decreasing by case-insensitive website. */
  lemma {:induction false} SortIsSorted(s: seq<Account>)
    ensures SortedByWebsite(SortByWebsite(s))
  {
    if s != [] {
      SortIsSorted(s[..|s| - 1]);
      InsertSorted(s[|s| - 1], SortByWebsite(s[..|s| - 1]));
    }
  }

  /** Stability: the accounts sharing one website key keep their relative order. */
  lemma {:induction false} SortIsStable(s: seq<Account>, k: string)
    ensures WithKey(SortByWebsite(s), k) == WithKey(s, k)
  {
    if s != [] {
      var init, last := s[..|s| - 1], s[|s| - 1];
      SortIsStable(init, k);
      SortIsSorted(init);
      InsertWithKey(last, SortByWebsite(init), k);
      WithKeyAppend(init, [last], k);
      assert init + [last] == s;
    }
  }

  /** A list that is already in website order is left as it is. */
  lemma {:induction false} SortedIsFixed(s: seq<Account>)
    requires SortedByWebsite(s)
    ensures SortByWebsite(s) == s
  {
    if s != [] {
      var init, last := s[..|s| - 1], s[|s| - 1];
      assert SortedByWebsite(init) by {
        assert forall i :: 0 <= i < |init| ==> init[i] == s[i];
      }
      SortedIsFixed(init);
      InsertAtEnd(last, init);
      assert init + [last] == s;
    }
  }

  lemma {:induction false} InsertAtEnd(x: Account, s: seq<Account>)
    requires forall i :: 0 <= i < |s| ==> WebsiteLe(s[i], x)
    ensures Insert(x, s) == s + [x]
  {
    if s != [] {
      InsertAtEnd(x, s[1..]);
      assert [s[0]] + (s[1..] + [x]) == s + [x];
    }
  }

  // ================================================================ search

  /** An account matches when its lower-cased website or username contains the lower-cased term. */
  predicate Matches(a: Account, term: string)
  {
    Contains(ToLower(a.website), ToLower(term)) || Contains(ToLower(a.username), ToLower(term))
  }

  /** The accounts of `s` that match `term`, in their order in `s`. */
  function Matching(s: seq<Account>, term: string): (r: seq<Account>)
    ensures |r| <= |s|
    ensures forall a :: a in r <==> a in s && Matches(a, term)
  {
    if s == [] then []
    else
      var init := s[..|s| - 1];
      var r := Matching(init, term) + (if Matches(s[|s| - 1], term) then [s[|s| - 1]] else []);
      assert s == init + [s[|s| - 1]];
      r
  }

  /** Filtering commutes with concatenation, so the matches come out in list order. */
  lemma {:induction false} MatchingAppend(a: seq<Account>, b: seq<Account>, term: string)
    ensures Matching(a + b, term) == Matching(a, term) + Matching(b, term)
  {
    if b != [] {
      var b0 := b[..|b| - 1];
      MatchingAppend(a, b0, term);
      assert (a + b)[..|a + b| - 1] == a + b0;
      assert (a + b)[|a + b| - 1] == b[|b| - 1];
    } else {
      assert a + b == a;
    }
  }

  /** The empty term matches every account, so it returns the whole list. */
  lemma {:induction false} EmptyTermMatchesAll(s: seq<Account>)
    ensures Matching(s, "") == s
  {
    if s != [] {
      EmptyTermMatchesAll(s[..|s| - 1]);
      ContainsEmpty(ToLower(s[|s| - 1].website));
      assert s[..|s| - 1] + [s[|s| - 1]] == s;
    }
  }

  // ================================================================ password generation

  const UppercaseChars: string := "ABCDEFGHIJKLMNOPQRSTUVWXYZ"
  const LowercaseChars: string := "abcdefghijklmnopqrstuvwxyz"
  const NumberChars: string := "0123456789"
  const SpecialChars: string := "!@#$%^&*()_-+=<>?"
  const AllChars: string := UppercaseChars + LowercaseChars + NumberChars + SpecialChars

  /** SecureRandom.nextInt(bound): any value in [0, bound). */
  method RandomInt(bound: nat) returns (r: nat)
    requires bound > 0
    ensures r < bound
  {
    r :| r < bound;
  }

  /** SecureRandom.nextBytes on an array of `n` bytes. */
  method RandomBytes(n: nat) returns (bytes: Bytes)
    ensures |bytes| == n
  {
    bytes := [];
    while |bytes| < n
      invariant |bytes| <= n
    {
      var b := RandomInt(256);
      bytes := bytes + [b];
    }
  }

  /** The Fisher-Yates loop: position i swaps with a random j <= i, from the last position down to 1. */
  method Shuffle(a: array<char>)
    modifies a
    ensures multiset(a[..]) == multiset(old(a[..]))
  {
    var i := a.Length - 1;
    while i > 0
      invariant i < a.Length
      invariant multiset(a[..]) == multiset(old(a[..]))
    {
      var index := RandomInt(i + 1);
      a[index], a[i] := a[i], a[index];
      i := i - 1;
    }
  }

  lemma CharsetClasses()
    ensures forall c :: c in UppercaseChars ==> ClassOf(c) == Upper
    ensures forall c :: c in LowercaseChars ==> ClassOf(c) == Lower
    ensures forall c :: c in NumberChars ==> ClassOf(c) == Digit
    ensures forall c :: c in SpecialChars ==> ClassOf(c) == Special
  {
  }

  ghost predicate HasCharFrom(s: string, chars: string)
  {
    exists i :: 0 <= i < |s| && s[i] in chars
  }

  /**
   * What the shuffle cannot undo: any rearrangement of a draw that starts with
   * one character of each set still uses only the four sets, holds a character
   * of each, and so rates by length alone.
   */
  lemma ShuffledDrawKeepsGuarantees(password: string, drawn: string)
    requires multiset(password) == multiset(drawn) && |drawn| >= 8
    requires drawn[0] in UppercaseChars && drawn[1] in LowercaseChars
    requires drawn[2] in NumberChars && drawn[3] in SpecialChars
    requires forall j :: 0 <= j < |drawn| ==> drawn[j] in AllChars
    ensures |password| == |drawn|
    ensures forall i :: 0 <= i < |password| ==> password[i] in AllChars
    ensures HasCharFrom(password, UppercaseChars) && HasCharFrom(password, LowercaseChars)
    ensures HasCharFrom(password, NumberChars) && HasCharFrom(password, SpecialChars)
    ensures Rating(password) == if |password| >= 16 then VeryStrong else if |password| >= 12 then Strong else Medium
  {
    assert |password| == |multiset(password)| == |multiset(drawn)| == |drawn|;
    forall i | 0 <= i < |password|
      ensures password[i] in AllChars
    {
      assert password[i] in multiset(drawn);
    }
    assert drawn[0] in multiset(password) && drawn[1] in multiset(password);
    assert drawn[2] in multiset(password) && drawn[3] in multiset(password);
    CharsetClasses();
    var iu :| 0 <= iu < |password| && password[iu] == drawn[0];
    var il :| 0 <= il < |password| && password[il] == drawn[1];
    var id :| 0 <= id < |password| && password[id] == drawn[2];
    var isp :| 0 <= isp < |password| && password[isp] == drawn[3];
    AllClassesRating(password);
  }

  // ================================================================ save and load lines

  /** The lines saveToFile writes: line i is account i encrypted with nonce i. */
  function EncryptLines(p: Primitives, key: Bytes, accounts: seq<Account>, nonces: seq<Bytes>): (lines: seq<string>)
    requires |nonces| == |accounts|
    requires forall i :: 0 <= i < |nonces| ==> |nonces[i]| == NonceLength
    ensures |lines| == |accounts|
  {
    seq(|accounts|, i requires 0 <= i < |accounts| => Encrypt(p, key, nonces[i], ToDataString(accounts[i])))
  }

  /** loadFromFile's one error: any failure to decrypt or decode a line. */
  datatype LoadError = DecryptionFailed

  /** One line of the file: decrypt, then parse the record; either failure is the same error. */
  function DecodeLine(p: Primitives, key: Bytes, line: string): (r: Result<Account, LoadError>)
    ensures r.Success? <==> Decrypt(p, key, line).Success? && Count(Decrypt(p, key, line).value, Delimiter) == 2
    ensures r.Success? ==> NoDelimiter(r.value) && ToDataString(r.value) == Decrypt(p, key, line).value
  {
    match Decrypt(p, key, line)
    case Failure(_) => Failure(DecryptionFailed)
    case Success(text) =>
      match FromString(text)
      case Failure(_) => Failure(DecryptionFailed)
      case Success(a) => Success(a)
  }

  ghost predicate AllDecode(p: Primitives, key: Bytes, lines: seq<string>)
  {
    forall i :: 0 <= i < |lines| ==> DecodeLine(p, key, lines[i]).Success?
  }

  /**
   * The accounts decoded from the lines before the first line that fails:
   * every one of them comes from its own line, and if some line is left over it
   * is the one that failed.
   */
  function DecodedPrefix(p: Primitives, key: Bytes, lines: seq<string>): (accounts: seq<Account>)
    ensures |accounts| <= |lines|
    ensures forall i :: 0 <= i < |accounts| ==> DecodeLine(p, key, lines[i]) == Success(accounts[i])
    ensures |accounts| < |lines| ==> DecodeLine(p, key, lines[|accounts|]).Failure?
  {
    if lines == [] then []
    else
      match DecodeLine(p, key, lines[0])
      case Failure(_) => []
      case Success(a) =>
        var rest := DecodedPrefix(p, key, lines[1..]);
        assert forall i :: 1 <= i < |lines| ==> lines[1..][i - 1] == lines[i];
        [a] + rest
  }

  /** Every line decodes exactly when the decoded prefix covers the whole file. */
  lemma AllDecodeIff(p: Primitives, key: Bytes, lines: seq<string>)
    ensures AllDecode(p, key, lines) <==> |DecodedPrefix(p, key, lines)| == |lines|
  {
  }

  /**
   * Saving and loading: with sound primitives, the lines written for accounts
   * whose fields hold no comma all decode, each back to its own account, in
   * file order, whatever nonces were drawn.
   */
  lemma LoadAfterSave(p: Primitives, key: Bytes, accounts: seq<Account>, nonces: seq<Bytes>)
    requires Sound(p)
    requires |nonces| == |accounts|
    requires forall i :: 0 <= i < |nonces| ==> |nonces[i]| == NonceLength
    requires forall i :: 0 <= i < |accounts| ==> NoDelimiter(accounts[i])
    ensures AllDecode(p, key, EncryptLines(p, key, accounts, nonces))
    ensures DecodedPrefix(p, key, EncryptLines(p, key, accounts, nonces)) == accounts
  {
    var lines := EncryptLines(p, key, accounts, nonces);
    forall i | 0 <= i < |lines|
      ensures DecodeLine(p, key, lines[i]) == Success(accounts[i])
    {
      DecryptEncrypt(p, key, nonces[i], ToDataString(accounts[i]));
      RoundTrip(accounts[i]);
    }
    var decoded := DecodedPrefix(p, key, lines);
    assert |decoded| == |lines|;
    assert forall i :: 0 <= i < |decoded| ==> decoded[i] == accounts[i];
  }

  /**
   * A file saved under one key and loaded under another fails on its first
   * line, so nothing is decoded.
   */
  lemma LoadWithWrongKey(p: Primitives, key: Bytes, otherKey: Bytes, accounts: seq<Account>, nonces: seq<Bytes>)
    requires Sound(p) && Authenticating(p) && key != otherKey
    requires |nonces| == |accounts| > 0
    requires forall i :: 0 <= i < |nonces| ==> |nonces[i]| == NonceLength
    ensures !AllDecode(p, otherKey, EncryptLines(p, key, accounts, nonces))
    ensures DecodedPrefix(p, otherKey, EncryptLines(p, key, accounts, nonces)) == []
  {
    var lines := EncryptLines(p, key, accounts, nonces);
    DecryptWrongKey(p, key, otherKey, nonces[0], ToDataString(accounts[0]));
    assert DecodeLine(p, otherKey, lines[0]).Failure?;
  }

  // ================================================================ the manager

  class PasswordManager {
    /** The account list, mutated in place by add, clear and sort. */
    var accounts: seq<Account>
    const masterPassword: string
    const prims: Primitives
    /** The secret key of the manager's CryptoUtils object. */
    const key: Bytes

    constructor (masterPassword: string, prims: Primitives)
      ensures this.masterPassword == masterPassword && this.prims == prims
      ensures key == DerivedKey(prims, masterPassword)
      ensures accounts == []
    {
      var k := DeriveKeyFromPassword(prims, masterPassword);
      this.masterPassword := masterPassword;
      this.prims := prims;
      this.key := k;
      this.accounts := [];
    }

    /** addAccount: appends at the end, without looking for duplicates. */
    method AddAccount(account: Account)
      modifies this
      ensures accounts == old(accounts) + [account]
    {
      accounts := accounts + [account];
    }

    /** sortAccountsByWebsite: Collections.sort with the case-insensitive website comparator. */
    method SortAccountsByWebsite()
      modifies this
      ensures accounts == SortByWebsite(old(accounts))
      ensures multiset(accounts) == multiset(old(accounts))
      ensures SortedByWebsite(accounts)
      ensures forall k :: WithKey(accounts, k) == WithKey(old(accounts), k)
    {
      SortIsSorted(accounts);
      forall k
        ensures WithKey(SortByWebsite(accounts), k) == WithKey(accounts, k)
      {
        SortIsStable(accounts, k);
      }
      accounts := SortByWebsite(accounts);
    }

    /**
     * searchAccounts: a new list of the accounts whose lower-cased website or
     * username contains the lower-cased term, in list order; the stored list
     * is only read.
     */
    method SearchAccounts(searchTerm: string) returns (results: seq<Account>)
      ensures results == Matching(accounts, searchTerm)
      ensures forall a :: a in results <==> a in accounts && Matches(a, searchTerm)
      ensures searchTerm == "" ==> results == accounts
    {
      results := [];
      var lowerSearchTerm := ToLower(searchTerm);
      for i := 0 to |accounts|
        invariant results == Matching(accounts[..i], searchTerm)
      {
        var account := accounts[i];
        assert accounts[..i + 1][..i] == accounts[..i];
        if Contains(ToLower(account.website), lowerSearchTerm) || Contains(ToLower(account.username), lowerSearchTerm) {
          results := results + [account];
        }
      }
      assert accounts[..|accounts|] == accounts;
      if searchTerm == "" {
        EmptyTermMatchesAll(accounts);
      }
    }

    /**
     * generatePassword: the length is raised to at least 8; one uppercase,
     * one lowercase, one digit and one special character are drawn first, the
     * rest from all four sets, and the whole is shuffled. `drawn` is the text
     * before the shuffle.
     */
    method GeneratePassword(length: int) returns (password: string, ghost drawn: string)
      ensures |password| == |drawn| == if length < 8 then 8 else length
      ensures multiset(password) == multiset(drawn)
      ensures drawn[0] in UppercaseChars && drawn[1] in LowercaseChars
      ensures drawn[2] in NumberChars && drawn[3] in SpecialChars
      ensures forall i :: 0 <= i < |password| ==> password[i] in AllChars
      ensures HasCharFrom(password, UppercaseChars) && HasCharFrom(password, LowercaseChars)
      ensures HasCharFrom(password, NumberChars) && HasCharFrom(password, SpecialChars)
      ensures Rating(password) == if |password| >= 16 then VeryStrong else if |password| >= 12 then Strong else Medium
    {
      var n := if length < 8 then 8 else length;
      var r := RandomInt(|UppercaseChars|);
      var text := [UppercaseChars[r]];
      r := RandomInt(|LowercaseChars|);
      text := text + [LowercaseChars[r]];
      r := RandomInt(|NumberChars|);
      text := text + [NumberChars[r]];
      r := RandomInt(|SpecialChars|);
      text := text + [SpecialChars[r]];
      for i := 4 to n
        invariant |text| == i
        invariant text[0] in UppercaseChars && text[1] in LowercaseChars
        invariant text[2] in NumberChars && text[3] in SpecialChars
        invariant forall j :: 0 <= j < i ==> text[j] in AllChars
      {
        r := RandomInt(|AllChars|);
        text := text + [AllChars[r]];
      }
      drawn := text;
      var passwordArray := new char[|text|](j requires 0 <= j < |text| => text[j]);
      assert passwordArray[..] == text;
      Shuffle(passwordArray);
      password := passwordArray[..];
      ShuffledDrawKeepsGuarantees(password, drawn);
    }

    /**
     * saveToFile's loop: one line per account in list order, each the
     * encryption of the account's data string under a fresh random nonce.
     */
    method SaveToFile() returns (lines: seq<string>, ghost nonces: seq<Bytes>)
      ensures |nonces| == |accounts|
      ensures forall i :: 0 <= i < |nonces| ==> |nonces[i]| == NonceLength
      ensures lines == EncryptLines(prims, key, accounts, nonces)
      ensures |lines| == |accounts|
      ensures Sound(prims) ==>
        forall i :: 0 <= i < |lines| ==> Decrypt(prims, key, lines[i]) == Success(ToDataString(accounts[i]))
    {
      lines, nonces := [], [];
      for i := 0 to |accounts|
        invariant |nonces| == |lines| == i
        invariant forall j :: 0 <= j < i ==> |nonces[j]| == NonceLength
        invariant forall j :: 0 <= j < i ==> lines[j] == Encrypt(prims, key, nonces[j], ToDataString(accounts[j]))
      {
        var plainText := ToDataString(accounts[i]);
        var nonce := RandomBytes(NonceLength);
        var encrypted := Encrypt(prims, key, nonce, plainText);
        lines, nonces := lines + [encrypted], nonces + [nonce];
      }
      if Sound(prims) {
        forall i | 0 <= i < |lines|
          ensures Decrypt(prims, key, lines[i]) == Success(ToDataString(accounts[i]))
        {
          DecryptEncrypt(prims, key, nonces[i], ToDataString(accounts[i]));
        }
      }
    }

    /**
     * loadFromFile's loop: the list is cleared, each line is decoded and
     * appended in file order; the first line that fails ends the load with an
     * error and leaves the accounts decoded so far in the list; if every line
     * decodes the list is sorted by website.
     */
    method LoadFromFile(lines: seq<string>) returns (outcome: Result<(), LoadError>)
      modifies this
      ensures outcome.Success? <==> AllDecode(prims, key, lines)
      ensures outcome.Success? ==> accounts == SortByWebsite(DecodedPrefix(prims, key, lines))
      ensures outcome.Failure? ==> accounts == DecodedPrefix(prims, key, lines)
    {
      accounts := [];
      ghost var decoded := DecodedPrefix(prims, key, lines);
      for i := 0 to |lines|
        invariant i <= |decoded| && accounts == decoded[..i]
      {
        var line := DecodeLine(prims, key, lines[i]);
        match line
        case Failure(e) =>
          assert i == |decoded|;
          assert !DecodeLine(prims, key, lines[i]).Success?;
          return Failure(e);
        case Success(account) =>
          assert i < |decoded| && decoded[i] == account;
          assert decoded[..i + 1] == decoded[..i] + [account];
          AddAccount(account);
      }
      assert decoded[..|lines|] == decoded;
      AllDecodeIff(prims, key, lines);
      SortAccountsByWebsite();
      outcome := Success(());
    }
  }
}
