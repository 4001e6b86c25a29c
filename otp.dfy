/**
  One row of the Microsoft Authenticator export: the secret cleanup, the
  conversion the account type calls for, and the `otpauth://totp/...`
  provisioning URI; and what a URI parser reads back from that URI.
 */
module OtpUri {

  import opened Wrappers
  import Base64
  import Base32
  import Percent
  import Convert

  // ---------------------------------------------------------------------------
  // Secret cleanup

  /** `s.replace(c, '')` */
  function Remove(s: string, c: char): (r: string)
    ensures forall x :: x in r <==> x in s && x != c
    ensures c !in s ==> r == s
    ensures |r| <= |s|
  {
    if |s| == 0 then ""
    else (if s[0] == c then "" else [s[0]]) + Remove(s[1..], c)
  }

  /** `Remove` of a single character: the character is dropped exactly when it is `c`. */
  lemma RemoveChar(x: char, c: char)
    ensures Remove([x], c) == if x == c then "" else [x]
  {
    assert [x][1..] == "";
  }

  /** The four characters the cleanup removes. */
  predicate IsBlank(c: char) {
    c == ' ' || c == '\t' || c == '\n' || c == '\r'
  }

  /** `.replace(' ', '').replace('\t', '').replace('\n', '').replace('\r', '')` */
  function Clean(s: string): (r: string)
    ensures forall i :: 0 <= i < |r| ==> !IsBlank(r[i])
    ensures (forall i :: 0 <= i < |s| ==> !IsBlank(s[i])) ==> r == s
  {
    assert (forall i :: 0 <= i < |s| ==> !IsBlank(s[i])) ==> ' ' !in s && '\t' !in s && '\n' !in s && '\r' !in s;
    var r := Remove(Remove(Remove(Remove(s, ' '), '\t'), '\n'), '\r');
    assert forall i :: 0 <= i < |r| ==> r[i] in r;
    r
  }

  lemma {:induction false} RemoveAppend(a: string, b: string, c: char)
    ensures Remove(a + b, c) == Remove(a, c) + Remove(b, c)
  {
    if |a| == 0 {
      assert a + b == b;
    } else {
      var head := if a[0] == c then "" else [a[0]];
      assert (a + b)[0] == a[0] && (a + b)[1..] == a[1..] + b;
      RemoveAppend(a[1..], b, c);
      assert Remove(a + b, c) == head + (Remove(a[1..], c) + Remove(b, c));
      assert head + (Remove(a[1..], c) + Remove(b, c)) == (head + Remove(a[1..], c)) + Remove(b, c);
    }
  }

  /** The cleanup works character by character ... */
  lemma CleanAppend(a: string, b: string)
    ensures Clean(a + b) == Clean(a) + Clean(b)
  {
    RemoveAppend(a, b, ' ');
    RemoveAppend(Remove(a, ' '), Remove(b, ' '), '\t');
    RemoveAppend(Remove(Remove(a, ' '), '\t'), Remove(Remove(b, ' '), '\t'), '\n');
    RemoveAppend(Remove(Remove(Remove(a, ' '), '\t'), '\n'), Remove(Remove(Remove(b, ' '), '\t'), '\n'), '\r');
  }

  /** ... dropping exactly the four blank characters and keeping every other one. */
  lemma CleanChar(c: char)
    ensures Clean([c]) == if IsBlank(c) then "" else [c]
  {
    assert [c][1..] == "";
  }

  /** Cleaning twice is cleaning once. */
  lemma CleanIdempotent(s: string)
    ensures Clean(Clean(s)) == Clean(s)
  {
  }

  /** `c.upper()` for ASCII letters; every other character is left as it is. */
  function UpperChar(c: char): char {
    if 'a' <= c <= 'z' then (c as int - 32) as char else c
  }

  /** `s.upper()` over ASCII. */
  function Upper(s: string): (r: string)
    ensures |r| == |s|
    ensures forall i :: 0 <= i < |r| ==> !('a' <= r[i] <= 'z')
    ensures forall i :: 0 <= i < |s| && 'a' <= s[i] <= 'z' ==> r[i] as int == s[i] as int - 32
    ensures forall i :: 0 <= i < |s| && !('a' <= s[i] <= 'z') ==> r[i] == s[i]
  {
    seq(|s|, i requires 0 <= i < |s| => UpperChar(s[i]))
  }

  /** Upper-casing twice is upper-casing once. */
  lemma UpperIdempotent(s: string)
    ensures Upper(Upper(s)) == Upper(s)
  {
    UpperKeeps(Upper(s));
  }

  /** A text without lower-case letters is its own upper case. */
  lemma UpperKeeps(s: string)
    requires forall i :: 0 <= i < |s| ==> !('a' <= s[i] <= 'z')
    ensures Upper(s) == s
  {
  }

  // ---------------------------------------------------------------------------
  // One row

  /** A row of the query: `name`, `username`, `oath_secret_key`, `account_type`. */
  datatype Row = Row(name: Option<string>, username: Option<string>, secretKey: string, accountType: int)

  /** `name or 'Unknown'` */
  function Issuer(name: Option<string>): string {
    if name.Some? && name.value != "" then name.value else "Unknown"
  }

  /** `username or ''` */
  function Account(username: Option<string>): string {
    if username.Some? then username.value else ""
  }

  /** `issuer_encoded:account_encoded`, or `issuer_encoded` alone when there is no account. */
  function Label(issuerEncoded: string, account: string): string {
    if account != "" then issuerEncoded + ":" + Percent.Quote(account) else issuerEncoded
  }

  function Algorithm(accountType: int): string {
    if accountType == 2 then "SHA256" else "SHA1"
  }

  const Scheme: string := "otpauth://totp/"

  /** The query of the URI template: the secret, the fixed `digits` and `period`, the algorithm and the issuer. */
  function Query(secret: string, algorithm: string, issuerEncoded: string): string {
    "secret=" + secret + "&" + "digits=6" + "&" + "period=30" + "&" + "algorithm=" + algorithm + "&" + "issuer=" + issuerEncoded
  }

  /** The URI template. */
  function Uri(otpLabel: string, secret: string, algorithm: string, issuerEncoded: string): string {
    Scheme + otpLabel + "?" + Query(secret, algorithm, issuerEncoded)
  }

  /** The secret the row's account type calls for: base64 converted to base32 for type 1, upper-cased otherwise. */
  function Secret(row: Row): (r: Option<string>)
    ensures r.None? <==> row.accountType == 1 && Base64.Lenient(Clean(row.secretKey)).None?
    ensures r.Some? && row.accountType == 1 ==> Base32.Decode(r.value) == Base64.Lenient(Clean(row.secretKey))
    ensures row.accountType != 1 ==> r.Some? && |r.value| == |Clean(row.secretKey)|
    ensures row.accountType != 1 ==> forall i :: 0 <= i < |r.value| ==> !('a' <= r.value[i] <= 'z')
    ensures row.accountType != 1 && r.Some? ==>
      forall i :: 0 <= i < |r.value| ==> r.value[i] == UpperChar(Clean(row.secretKey)[i])
    ensures r.Some? ==> forall i :: 0 <= i < |r.value| ==> !IsBlank(r.value[i])
  {
    var cleaned := Clean(row.secretKey);
    if row.accountType == 1 then
      Convert.Transcode(cleaned)
    else
      var upper := Upper(cleaned);
      Some(upper)
  }

  /** The provisioning URI of one row, or None when the row is skipped. */
  function Transform(row: Row): (r: Option<string>)
    ensures r.None? <==> row.accountType == 1 && Base64.Lenient(Clean(row.secretKey)).None?
  {
    match Secret(row)
    case None => None
    case Some(secret) => Some(RowUri(row, secret))
  }

  /** The URI of a row, given the secret its account type calls for. */
  function RowUri(row: Row, secret: string): string {
    var issuerEncoded := Percent.Quote(Issuer(row.name));
    Uri(Label(issuerEncoded, Account(row.username)), secret, Algorithm(row.accountType), issuerEncoded)
  }

  // ---------------------------------------------------------------------------
  // Reading a URI back

  /** The position of the first `c` in `s`. */
  function Find(s: string, c: char): (i: nat)
    requires c in s
    ensures i < |s| && s[i] == c && c !in s[..i]
  {
    if s[0] == c then 0 else Find(s[1..], c) + 1
  }

  /** The pieces of `s` between the separators. */
  function Split(s: string, sep: char): (parts: seq<string>)
    ensures |parts| >= 1
    decreases |s|
  {
    if sep in s then
      var i := Find(s, sep);
      [s[..i]] + Split(s[i + 1..], sep)
    else [s]
  }

  /** The value of the first `key=value` field. */
  function Lookup(fields: seq<string>, key: string): Option<string> {
    if |fields| == 0 then None
    else if key + "=" <= fields[0] then Some(fields[0][|key| + 1..])
    else Lookup(fields[1..], key)
  }

  /** The path of an otpauth URI: what follows the scheme up to the '?'. */
  function LabelOf(u: string): Option<string> {
    if Scheme <= u && '?' in u[|Scheme|..] then
      var rest := u[|Scheme|..];
      Some(rest[..Find(rest, '?')])
    else None
  }

  /** A query parameter of a URI: the fields after the first '?' are separated by '&'. */
  function ParamOf(u: string, key: string): Option<string> {
    if '?' in u then Lookup(Split(u[Find(u, '?') + 1..], '&'), key) else None
  }

  lemma FindAfter(a: string, c: char, b: string)
    requires c !in a
    ensures c in a + [c] + b && Find(a + [c] + b, c) == |a|
  {
    var s := a + [c] + b;
    assert s[|a|] == c;
  }

  lemma SplitAfter(a: string, sep: char, b: string)
    requires sep !in a
    ensures Split(a + [sep] + b, sep) == [a] + Split(b, sep)
  {
    var s := a + [sep] + b;
    FindAfter(a, sep, b);
    assert s[..|a|] == a;
    assert s[|a| + 1..] == b;
  }

  /** The text of the label before percent-encoding. */
  function LabelText(name: Option<string>, username: Option<string>): string {
    var account := Account(username);
    if account != "" then Issuer(name) + ":" + account else Issuer(name)
  }

  /** A label holds no '?', no '#' and no line break: its issuer and account are percent-encoded. */
  lemma LabelChars(name: Option<string>, username: Option<string>)
    ensures var otpLabel := Label(Percent.Quote(Issuer(name)), Account(username));
      '?' !in otpLabel && '#' !in otpLabel && '\n' !in otpLabel
  {
    var account := Account(username);
    if account != "" {
      var l := Percent.Quote(Issuer(name)) + ":" + Percent.Quote(account);
      assert '?' !in ":" && '#' !in ":" && '\n' !in ":";
    }
  }

  /** The label of a row's URI decodes to the issuer, followed by ':' and the account when there is one. */
  lemma LabelReadBack(name: Option<string>, username: Option<string>)
    ensures Percent.Unquote(Label(Percent.Quote(Issuer(name)), Account(username)))
         == Some(Percent.Utf8Encode(LabelText(name, username)))
  {
    var issuer, account := Issuer(name), Account(username);
    var issuerEncoded := Percent.Quote(issuer);
    Percent.UnquoteQuote(issuer);
    if account != "" {
      Percent.UnquoteQuote(account);
      Percent.UnquoteAppend(issuerEncoded, ":" + Percent.Quote(account));
      Percent.UnquoteAppend(":", Percent.Quote(account));
      Percent.Utf8Append(issuer, ":" + account);
      Percent.Utf8Append(":", account);
      assert issuerEncoded + ":" + Percent.Quote(account) == issuerEncoded + (":" + Percent.Quote(account));
      assert issuer + ":" + account == issuer + (":" + account);
    }
  }

  /** A parser finds the label between the scheme and the first '?', and the query after it. */
  lemma UriParts(otpLabel: string, secret: string, algorithm: string, issuerEncoded: string)
    requires '?' !in otpLabel
    ensures var u := Uri(otpLabel, secret, algorithm, issuerEncoded);
      && LabelOf(u) == Some(otpLabel)
      && '?' in u && u[Find(u, '?') + 1..] == Query(secret, algorithm, issuerEncoded)
  {
    PathAndQuery(otpLabel, Query(secret, algorithm, issuerEncoded));
  }

  lemma PathAndQuery(path: string, q: string)
    requires '?' !in path
    ensures var u := Scheme + path + "?" + q;
      && LabelOf(u) == Some(path)
      && '?' in u && u[Find(u, '?') + 1..] == q
  {
    var u := Scheme + path + "?" + q;
    var rest := path + ['?'] + q;
    assert u == Scheme + rest;
    assert u[|Scheme|..] == rest;
    FindAfter(path, '?', q);
    assert rest[..|path|] == path;
    assert '?' !in Scheme;
    assert u == (Scheme + path) + ['?'] + q;
    FindAfter(Scheme + path, '?', q);
  }

  /** The '&'-separated fields of the query. */
  function Fields(secret: string, algorithm: string, issuerEncoded: string): seq<string> {
    ["secret=" + secret, "digits=6", "period=30", "algorithm=" + algorithm, "issuer=" + issuerEncoded]
  }

  /** The query is its five fields joined by '&'. */
  lemma QueryShape(secret: string, algorithm: string, issuerEncoded: string)
    ensures var f := Fields(secret, algorithm, issuerEncoded);
      Query(secret, algorithm, issuerEncoded) == f[0] + "&" + (f[1] + "&" + (f[2] + "&" + (f[3] + "&" + f[4])))
  {
  }

  /** The fields joined by a separator. */
  function JoinFields(fields: seq<string>, sep: char): string
    requires |fields| >= 1
  {
    if |fields| == 1 then fields[0] else fields[0] + [sep] + JoinFields(fields[1..], sep)
  }

  /** Splitting at a separator that no field holds undoes joining with it. */
  lemma {:induction false} SplitJoin(fields: seq<string>, sep: char)
    requires |fields| >= 1
    requires forall i :: 0 <= i < |fields| ==> sep !in fields[i]
    ensures Split(JoinFields(fields, sep), sep) == fields
  {
    if |fields| == 1 {
      assert sep !in fields[0];
    } else {
      var rest := JoinFields(fields[1..], sep);
      SplitJoin(fields[1..], sep);
      SplitAfter(fields[0], sep, rest);
      assert [fields[0]] + fields[1..] == fields;
    }
  }

  /** Splitting the query at '&' gives its fields, as long as no value holds an '&'. */
  lemma SplitQuery(secret: string, algorithm: string, issuerEncoded: string)
    requires '&' !in secret && '&' !in algorithm && '&' !in issuerEncoded
    ensures Split(Query(secret, algorithm, issuerEncoded), '&') == Fields(secret, algorithm, issuerEncoded)
  {
    var f := Fields(secret, algorithm, issuerEncoded);
    QueryShape(secret, algorithm, issuerEncoded);
    assert JoinFields(f[4..], '&') == f[4];
    assert JoinFields(f[3..], '&') == f[3] + ['&'] + f[4] by { assert f[3..][1..] == f[4..]; }
    assert JoinFields(f[2..], '&') == f[2] + ['&'] + (f[3] + ['&'] + f[4]) by { assert f[2..][1..] == f[3..]; }
    assert JoinFields(f[1..], '&') == f[1] + ['&'] + (f[2] + ['&'] + (f[3] + ['&'] + f[4])) by { assert f[1..][1..] == f[2..]; }
    assert Query(secret, algorithm, issuerEncoded) == JoinFields(f, '&');
    assert '&' !in f[0] && '&' !in f[1] && '&' !in f[2] && '&' !in f[3] && '&' !in f[4];
    SplitJoin(f, '&');
  }

  lemma LookupFound(fields: seq<string>, key: string, v: string)
    requires |fields| > 0 && fields[0] == key + "=" + v
    ensures Lookup(fields, key) == Some(v)
  {
    assert key + "=" <= fields[0];
    assert fields[0][|key| + 1..] == v;
  }

  lemma LookupSkip(fields: seq<string>, key: string)
    requires |fields| > 0 && |key| > 0 && |fields[0]| > 0 && fields[0][0] != key[0]
    ensures Lookup(fields, key) == Lookup(fields[1..], key)
  {
    assert !(key + "=" <= fields[0]) by { assert (key + "=")[0] == key[0]; }
  }

  /** Each key names the field that carries it. */
  lemma LookupFields(secret: string, algorithm: string, issuerEncoded: string)
    ensures var fields := Fields(secret, algorithm, issuerEncoded);
      && Lookup(fields, "secret") == Some(secret)
      && Lookup(fields, "digits") == Some("6")
      && Lookup(fields, "period") == Some("30")
      && Lookup(fields, "algorithm") == Some(algorithm)
      && Lookup(fields, "issuer") == Some(issuerEncoded)
  {
    var f := Fields(secret, algorithm, issuerEncoded);
    LookupFound(f, "secret", secret);
    LookupSkip(f, "digits");
    LookupFound(f[1..], "digits", "6");
    LookupSkip(f, "period");
    LookupSkip(f[1..], "period");
    LookupFound(f[2..], "period", "30");
    assert f[1..][1..] == f[2..];
    LookupSkip(f, "algorithm");
    LookupSkip(f[1..], "algorithm");
    LookupSkip(f[2..], "algorithm");
    LookupFound(f[3..], "algorithm", algorithm);
    assert f[2..][1..] == f[3..];
    LookupSkip(f, "issuer");
    LookupSkip(f[1..], "issuer");
    LookupSkip(f[2..], "issuer");
    LookupSkip(f[3..], "issuer");
    LookupFound(f[4..], "issuer", issuerEncoded);
    assert f[3..][1..] == f[4..];
  }

  /** The label and the five parameters a URI parser reads from the URI template. */
  lemma UriFields(otpLabel: string, secret: string, algorithm: string, issuerEncoded: string)
    requires '?' !in otpLabel && '&' !in secret && '&' !in algorithm && '&' !in issuerEncoded
    ensures var u := Uri(otpLabel, secret, algorithm, issuerEncoded);
      && LabelOf(u) == Some(otpLabel)
      && ParamOf(u, "secret") == Some(secret)
      && ParamOf(u, "digits") == Some("6")
      && ParamOf(u, "period") == Some("30")
      && ParamOf(u, "algorithm") == Some(algorithm)
      && ParamOf(u, "issuer") == Some(issuerEncoded)
  {
    UriParts(otpLabel, secret, algorithm, issuerEncoded);
    SplitQuery(secret, algorithm, issuerEncoded);
    LookupFields(secret, algorithm, issuerEncoded);
  }

  /**
    A secret a URI parser reads back as it is: no '&' that ends a field, no
    '#' that starts a fragment, and no '%' or '+' that a parser would decode.
   */
  predicate PlainSecret(secret: string) {
    '&' !in secret && '#' !in secret && '%' !in secret && '+' !in secret
  }

  /** Every converted (type 1) secret is plain: it is base32 text. */
  lemma ConvertedPlain(row: Row)
    requires Secret(row).Some? && row.accountType == 1
    ensures PlainSecret(Secret(row).value)
  {
    var text := Secret(row).value;
    assert forall i :: 0 <= i < |text| ==> Base32.IsLetter(text[i]);
  }

  /** The pieces a row's URI is made of, and what a parser reads back from it. */
  lemma RowFields(row: Row)
    requires Transform(row).Some? && PlainSecret(Secret(row).value)
    ensures var issuerEncoded := Percent.Quote(Issuer(row.name));
      var u := Transform(row).value;
      && LabelOf(u) == Some(Label(issuerEncoded, Account(row.username)))
      && ParamOf(u, "secret") == Secret(row)
      && ParamOf(u, "digits") == Some("6")
      && ParamOf(u, "period") == Some("30")
      && ParamOf(u, "algorithm") == Some(Algorithm(row.accountType))
      && ParamOf(u, "issuer") == Some(issuerEncoded)
  {
    var issuerEncoded := Percent.Quote(Issuer(row.name));
    var otpLabel := Label(issuerEncoded, Account(row.username));
    var secret := Secret(row).value;
    var algorithm := Algorithm(row.accountType);
    assert Transform(row).value == RowUri(row, secret) == Uri(otpLabel, secret, algorithm, issuerEncoded);
    LabelChars(row.name, row.username);
    assert '&' !in algorithm;
    UriFields(otpLabel, secret, algorithm, issuerEncoded);
  }

  /**
    A URI parser reads back from the URI of a row its label, its secret, its
    fixed `digits` and `period`, its algorithm and its issuer, as long as the
    secret is plain; `ConvertedPlain` shows that every type 1 secret is.
   */
  lemma ReadBack(row: Row)
    requires Transform(row).Some? && PlainSecret(Secret(row).value)
    ensures var u := Transform(row).value;
      && LabelOf(u).Some? && Percent.Unquote(LabelOf(u).value) == Some(Percent.Utf8Encode(LabelText(row.name, row.username)))
      && ParamOf(u, "secret") == Secret(row)
      && ParamOf(u, "digits") == Some("6")
      && ParamOf(u, "period") == Some("30")
      && ParamOf(u, "algorithm") == Some(if row.accountType == 2 then "SHA256" else "SHA1")
      && ParamOf(u, "issuer").Some?
      && Percent.Unquote(ParamOf(u, "issuer").value) == Some(Percent.Utf8Encode(Issuer(row.name)))
  {
    RowFields(row);
    LabelReadBack(row.name, row.username);
    Percent.UnquoteQuote(Issuer(row.name));
  }

  /** The label holds a ':' exactly when the row has a non-empty username. */
  lemma LabelColon(row: Row)
    requires Transform(row).Some?
    ensures LabelOf(Transform(row).value).Some?
    ensures ':' in LabelOf(Transform(row).value).value <==> Account(row.username) != ""
  {
    var issuerEncoded := Percent.Quote(Issuer(row.name));
    var account := Account(row.username);
    var otpLabel := Label(issuerEncoded, account);
    var secret := Secret(row).value;
    assert Transform(row).value == RowUri(row, secret) == Uri(otpLabel, secret, Algorithm(row.accountType), issuerEncoded);
    LabelChars(row.name, row.username);
    UriParts(otpLabel, secret, Algorithm(row.accountType), issuerEncoded);
    if account != "" {
      assert otpLabel[|issuerEncoded|] == ':';
    }
  }

  /** A row without a name is exported under the issuer `Unknown`: its URI ends with that parameter. */
  lemma UnknownIssuer(row: Row)
    requires Transform(row).Some?
    requires row.name.None? || row.name.value == ""
    ensures var u := Transform(row).value;
      |u| >= 15 && u[|u| - 15..] == "&issuer=Unknown"
  {
    var secret := Secret(row).value;
    assert Transform(row).value == RowUri(row, secret);
    UnknownRowUri(row, secret);
  }

  lemma UnknownRowUri(row: Row, secret: string)
    requires row.name.None? || row.name.value == ""
    ensures var u := RowUri(row, secret);
      |u| >= 15 && u[|u| - 15..] == "&issuer=Unknown"
  {
    UnknownQuoted(row.name);
    UnknownUri(Label("Unknown", Account(row.username)), secret, Algorithm(row.accountType));
  }

  /** A URI parser reads the issuer `Unknown` back from such a row's URI. */
  lemma UnknownIssuerRead(row: Row)
    requires Transform(row).Some? && PlainSecret(Secret(row).value)
    requires row.name.None? || row.name.value == ""
    ensures ParamOf(Transform(row).value, "issuer") == Some("Unknown")
  {
    UnknownQuoted(row.name);
    RowFields(row);
  }

  lemma UnknownUri(otpLabel: string, secret: string, algorithm: string)
    ensures var u := Uri(otpLabel, secret, algorithm, "Unknown");
      |u| >= 15 && u[|u| - 15..] == "&issuer=Unknown"
  {
    UriEnds(otpLabel, secret, algorithm, "Unknown");
    assert "&issuer=" + "Unknown" == "&issuer=Unknown";
  }

  /** A URI ends with its `issuer` parameter. */
  lemma UriEnds(otpLabel: string, secret: string, algorithm: string, issuerEncoded: string)
    ensures var u := Uri(otpLabel, secret, algorithm, issuerEncoded);
      |u| >= |issuerEncoded| + 8 && u[|u| - |issuerEncoded| - 8..] == "&issuer=" + issuerEncoded
  {
    var head := Scheme + otpLabel + "?" + "secret=" + secret + "&" + "digits=6" + "&" + "period=30" + "&" + "algorithm=" + algorithm;
    var tail := "&issuer=" + issuerEncoded;
    var u := Uri(otpLabel, secret, algorithm, issuerEncoded);
    assert u == head + tail;
    assert u[|head|..] == tail;
  }

  lemma UnknownQuoted(name: Option<string>)
    requires name.None? || name.value == ""
    ensures Percent.Quote(Issuer(name)) == "Unknown"
  {
    var unknown := "Unknown";
    assert Issuer(name) == unknown;
    assert forall i :: 0 <= i < |unknown| ==> 'A' <= unknown[i] <= 'Z' || 'a' <= unknown[i] <= 'z';
    Percent.QuoteSafe(unknown);
  }

  /** No URI holds a line break, so the output file has one line per URI. */
  lemma NoLineBreak(row: Row)
    requires Transform(row).Some?
    ensures '\n' !in Transform(row).value
  {
    var secret := Secret(row).value;
    assert Transform(row).value == RowUri(row, secret);
    SecretChars(row);
    RowUriChars(row, secret, '\n');
  }

  /** A secret holds no line break: it is base32 text, or the cleaned key, which has none. */
  lemma SecretChars(row: Row)
    requires Secret(row).Some?
    ensures '\n' !in Secret(row).value
  {
    var cleaned := Clean(row.secretKey);
    if row.accountType == 1 {
      var text := Convert.Transcode(cleaned).value;
      assert forall i :: 0 <= i < |text| ==> Base32.IsLetter(text[i]);
    } else {
      assert '\n' !in cleaned;
    }
  }

  lemma UriChars(otpLabel: string, secret: string, algorithm: string, issuerEncoded: string, c: char)
    requires c !in otpLabel && c !in secret && c !in algorithm && c !in issuerEncoded
    requires c != '?' && c !in Scheme
    requires c != '&' && c !in "secret=" && c !in "digits=6" && c !in "period=30" && c !in "algorithm=" && c !in "issuer="
    ensures c !in Uri(otpLabel, secret, algorithm, issuerEncoded)
  {
    QueryChars(secret, algorithm, issuerEncoded, c);
  }

  /** A URI holds no '#', so a parser sees no fragment, as long as the secret holds none. */
  lemma NoFragment(row: Row)
    requires Transform(row).Some? && '#' !in Secret(row).value
    ensures '#' !in Transform(row).value
  {
    var secret := Secret(row).value;
    assert Transform(row).value == RowUri(row, secret);
    RowUriChars(row, secret, '#');
  }

  /** A row's URI holds a line break or a '#' only where its secret does. */
  lemma RowUriChars(row: Row, secret: string, c: char)
    requires c == '\n' || c == '#'
    requires c !in secret
    ensures c !in RowUri(row, secret)
  {
    var issuerEncoded := Percent.Quote(Issuer(row.name));
    var otpLabel := Label(issuerEncoded, Account(row.username));
    var algorithm := Algorithm(row.accountType);
    LabelChars(row.name, row.username);
    FixedChars(c);
    UriChars(otpLabel, secret, algorithm, issuerEncoded, c);
  }

  /** Neither a line break nor a '#' occurs in the fixed parts of the URI template. */
  lemma FixedChars(c: char)
    requires c == '\n' || c == '#'
    ensures c != '?' && c !in Scheme && c !in "SHA1" && c !in "SHA256"
    ensures c != '&' && c !in "secret=" && c !in "digits=6" && c !in "period=30" && c !in "algorithm=" && c !in "issuer="
  {
  }

  lemma QueryChars(secret: string, algorithm: string, issuerEncoded: string, c: char)
    requires c !in secret && c !in algorithm && c !in issuerEncoded
    requires c != '&' && c !in "secret=" && c !in "digits=6" && c !in "period=30" && c !in "algorithm=" && c !in "issuer="
    ensures c !in Query(secret, algorithm, issuerEncoded)
  {
    QueryShape(secret, algorithm, issuerEncoded);
  }

  /**
    A row with a non-empty name of ASCII characters that need no escaping, no
    username, an account type other than 1, and a key with no blank and no
    lower-case letter: its URI carries the name and the key as they are.
   */
  lemma PlainRow(row: Row)
    requires row.name.Some? && row.name.value != ""
    requires forall i :: 0 <= i < |row.name.value| ==> Percent.IsSafeChar(row.name.value[i]) && row.name.value[i] as int < 128
    requires Account(row.username) == "" && row.accountType != 1
    requires forall i :: 0 <= i < |row.secretKey| ==> !IsBlank(row.secretKey[i]) && !('a' <= row.secretKey[i] <= 'z')
    ensures Transform(row) == Some(Uri(row.name.value, row.secretKey, Algorithm(row.accountType), row.name.value))
  {
    var key := row.secretKey;
    assert Clean(key) == key;
    UpperKeeps(key);
    assert Secret(row) == Some(key);
    Percent.QuoteSafe(row.name.value);
    assert Label(row.name.value, Account(row.username)) == row.name.value;
  }
}
