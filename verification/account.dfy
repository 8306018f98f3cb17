/**
 * Account.java: one stored credential and its one-line plain-text form
 * `website,username,password`.
 */
module Accounts {
  import opened Text
  import opened Results

  /**
   * A credential. The constructor stores its three arguments unchanged and the
   * getters return them, so the datatype's destructors are the getters;
   * `toString` returns the website, which is `website` itself.
   */
  datatype Account = Account(website: string, username: string, password: string)

  /** The IllegalArgumentException `fromString` throws. */
  datatype FormatError = InvalidAccountDataFormat

  const Delimiter: char := ','

  /** No field holds the delimiter, the condition under which the line form is lossless. */
  predicate NoDelimiter(a: Account)
  {
    Delimiter !in a.website && Delimiter !in a.username && Delimiter !in a.password
  }

  /**
   * toDataString: the three fields in the order website, username, password,
   * with exactly one delimiter between consecutive fields.
   */
  function ToDataString(a: Account): (line: string)
    ensures |line| == |a.website| + |a.username| + |a.password| + 2
    ensures line[..|a.website|] == a.website && line[|a.website|] == Delimiter
    ensures line[|a.website| + 1..|a.website| + 1 + |a.username|] == a.username
    ensures line[|a.website| + 1 + |a.username|] == Delimiter
    ensures line[|a.website| + |a.username| + 2..] == a.password
  {
    a.website + [Delimiter] + a.username + [Delimiter] + a.password
  }

  /**
   * fromString: split on every delimiter keeping empty fields (limit -1) and
   * accept exactly three fields. It succeeds exactly when the line holds two
   * delimiters, and what it accepts re-encodes to the very same line.
   */
  function FromString(data: string): (r: Result<Account, FormatError>)
    ensures r.Success? <==> Count(data, Delimiter) == 2
    ensures r.Success? ==> NoDelimiter(r.value) && ToDataString(r.value) == data
  {
    var parts := Split(data, Delimiter);
    if |parts| != 3 then
      Failure(InvalidAccountDataFormat)
    else
      var a := Account(parts[0], parts[1], parts[2]);
      JoinSplit(data, Delimiter);
      DataStringIsJoin(a);
      assert parts == [a.website, a.username, a.password];
      Success(a)
  }

  /** The line form is the three fields joined by the delimiter. */
  lemma DataStringIsJoin(a: Account)
    ensures ToDataString(a) == Join([a.website, a.username, a.password], Delimiter)
  {
    var fields := [a.website, a.username, a.password];
    assert fields[1..] == [a.username, a.password];
    assert fields[1..][1..] == [a.password];
    assert Join(fields[1..], Delimiter) == a.username + [Delimiter] + a.password;
    assert a.website + [Delimiter] + (a.username + [Delimiter] + a.password) == ToDataString(a);
  }

  /** Round trip: a credential whose fields hold no comma decodes back to itself. */
  lemma RoundTrip(a: Account)
    requires NoDelimiter(a)
    ensures FromString(ToDataString(a)) == Success(a)
  {
    var fields := [a.website, a.username, a.password];
    DataStringIsJoin(a);
    SplitJoin(fields, Delimiter);
  }

  /** A comma inside any field makes the encoded line fail to decode instead of yielding a different record. */
  lemma DelimiterInFieldFails(a: Account)
    requires !NoDelimiter(a)
    ensures FromString(ToDataString(a)).Failure?
  {
    CountAppend(a.website + [Delimiter] + a.username + [Delimiter], a.password, Delimiter);
    CountAppend(a.website + [Delimiter] + a.username, [Delimiter], Delimiter);
    CountAppend(a.website + [Delimiter], a.username, Delimiter);
    CountAppend(a.website, [Delimiter], Delimiter);
    CountZero(a.website, Delimiter);
    CountZero(a.username, Delimiter);
    CountZero(a.password, Delimiter);
  }

  /** Because of the -1 limit a trailing empty field survives: `w,u,` decodes with an empty password. */
  lemma TrailingEmptyFieldKept(website: string, username: string)
    requires Delimiter !in website && Delimiter !in username
    ensures FromString(website + [Delimiter] + username + [Delimiter]) == Success(Account(website, username, ""))
  {
    var a := Account(website, username, "");
    assert ToDataString(a) == website + [Delimiter] + username + [Delimiter];
    RoundTrip(a);
  }

  /** Concrete lines: the trailing empty field is kept, and two or four fields are refused. */
  lemma FromStringExamples()
    ensures FromString("a,b,") == Success(Account("a", "b", ""))
    ensures FromString("a,b").Failure?
    ensures FromString("a,b,c,d").Failure?
    ensures FromString("").Failure?
  {
    TrailingEmptyFieldKept("a", "b");
    assert "a" + [Delimiter] + "b" + [Delimiter] == "a,b,";
  }
}
