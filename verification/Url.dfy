/** The connection URL: `tarantool:<name>://<user>:<password>@<host>:<port>/<space>`. */
module Url {
  import opened Wrappers
  import opened Msgpack
  import opened Text

  datatype Target = Target(name: bytes, user: bytes, pass: bytes, host: bytes, port: int, space: bytes)

  const SLASH: byte := 47
  const COLON: byte := 58
  const AT: byte := 64
  const SCHEME: bytes := [116, 97, 114, 97, 110, 116, 111, 111, 108, COLON]
  const SLASHES: bytes := [SLASH, SLASH]
  const SEPARATOR: bytes := [COLON, SLASH, SLASH]
  const DEFAULT_NAME: bytes := [100, 101, 102, 97, 117, 108, 116]
  const GUEST: bytes := [103, 117, 101, 115, 116]
  const RTPE_CALLS: bytes := [114, 116, 112, 101, 95, 99, 97, 108, 108, 115]
  const DEFAULT_PORT: int := 3301

  // ---------------------------------------------------------------- parsing

  /** A C string ends at its first NUL. */
  function CString(s: bytes): bytes {
    s[..IndexOf(s, 0)]
  }

  /** The name and what follows the scheme. */
  function SplitName(s: bytes): Option<(bytes, bytes)> {
    if SCHEME + SLASHES <= s then Some((DEFAULT_NAME, s[12..]))
    else if SCHEME <= s then
      var p := s[10..];
      var end := Find(p, SEPARATOR);
      if end == |p| then None else Some((p[..end], p[end + 3..]))
    else None
  }

  /** The part up to the first slash, and the space behind it. */
  function SplitSpace(p: bytes): (bytes, bytes) {
    var slash := IndexOf(p, SLASH);
    if slash < |p| then (p[..slash], p[slash + 1..]) else (p, RTPE_CALLS)
  }

  /** User, password, and the address behind the first `@`. */
  function SplitUser(p: bytes): (bytes, bytes, bytes) {
    var at := IndexOf(p, AT);
    if at == |p| then (GUEST, [], p)
    else
      var cred := p[..at];
      var colon := IndexOf(cred, COLON);
      if colon < |cred| then (cred[..colon], cred[colon + 1..], p[at + 1..]) else (cred, [], p[at + 1..])
  }

  function SplitPort(p: bytes): (bytes, int) {
    var colon := IndexOf(p, COLON);
    if colon < |p| then (p[..colon], Atoi(p[colon + 1..])) else (p, DEFAULT_PORT)
  }

  /** `parse_tnt_url` */
  function Parse(url: bytes): Option<Target> {
    if url == [] then None
    else
      var n := SplitName(CString(url));
      if n.None? then None
      else
        var (authority, space) := SplitSpace(n.value.1);
        var (user, pass, address) := SplitUser(authority);
        var (host, port) := SplitPort(address);
        Some(Target(n.value.0, user, pass, host, port, space))
  }

  // ---------------------------------------------------------------- printing

  function PrintAddress(t: Target): bytes
  {
    t.host + [COLON] + PrintInt(t.port)
  }

  function PrintAuthority(t: Target): bytes
  {
    t.user + [COLON] + t.pass + [AT] + PrintAddress(t)
  }

  function Print(t: Target): bytes
  {
    SCHEME + t.name + SEPARATOR + (PrintAuthority(t) + [SLASH] + t.space)
  }

  // ---------------------------------------------------------------- when printing can be undone

  /** No component holds a separator that would end it early. */
  predicate Clean(t: Target) {
    && !(SLASHES <= t.name) && (forall i :: 0 <= i <= |t.name| ==> !(SEPARATOR <= t.name[i..]))
    && COLON !in t.user && AT !in t.user && SLASH !in t.user
    && AT !in t.pass && SLASH !in t.pass
    && COLON !in t.host && SLASH !in t.host
  }

  predicate InInt(port: int) {
    -(INT_MAX as int) - 1 <= port <= INT_MAX
  }

  /** What a C program can hold in these fields. */
  predicate Holdable(t: Target) {
    && InInt(t.port)
    && 0 !in t.name && 0 !in t.user && 0 !in t.pass && 0 !in t.host && 0 !in t.space
  }

  lemma NoNul(s: bytes)
    requires 0 !in s
    ensures CString(s) == s
  {
  }

  lemma PrintHasNoNul(t: Target)
    requires Holdable(t)
    ensures 0 !in Print(t)
  {
    assert forall i :: 0 <= i < |PrintInt(t.port)| ==> IsDigit(PrintInt(t.port)[i]) || PrintInt(t.port)[i] == 45;
  }

  lemma NameBack(t: Target, rest: bytes)
    requires Clean(t)
    ensures SplitName(SCHEME + t.name + SEPARATOR + rest) == Some((t.name, rest))
  {
    hide Find, SCHEME, SEPARATOR, SLASHES;
    var s := SCHEME + t.name + SEPARATOR + rest;
    var p := t.name + SEPARATOR + rest;
    NotDefault(t.name, rest);
    FirstSeparator(t.name, rest);
    Behind(t.name, rest);
  }

  lemma Behind(name: bytes, rest: bytes)
    ensures |SCHEME| == 10 && |SEPARATOR| == 3
    ensures var s, p := SCHEME + name + SEPARATOR + rest, name + SEPARATOR + rest;
            SCHEME <= s && s[10..] == p && p[..|name|] == name && p[|name| + 3..] == rest && |name| < |p|
  {
  }

  /** The scheme and a name do not read as the form without a name. */
  lemma NotDefault(name: bytes, rest: bytes)
    requires !(SLASHES <= name)
    ensures !(SCHEME + SLASHES <= SCHEME + name + SEPARATOR + rest)
  {
    if SCHEME + SLASHES <= SCHEME + name + SEPARATOR + rest {
      StartsWithSlashes(name, rest);
    }
  }

  lemma StartsWithSlashes(name: bytes, rest: bytes)
    requires SCHEME + SLASHES <= SCHEME + name + SEPARATOR + rest
    ensures SLASHES <= name
  {
    var s, q := SCHEME + name + SEPARATOR + rest, SCHEME + SLASHES;
    assert s[10] == q[10] && s[11] == q[11];
    assert s[10..] == name + SEPARATOR + rest;
    assert s[10..][0] == SLASH && s[10..][1] == SLASH;
  }

  /** The separator behind a name that holds none is the first one. */
  lemma FirstSeparator(name: bytes, rest: bytes)
    requires forall i :: 0 <= i <= |name| ==> !(SEPARATOR <= name[i..])
    ensures Find(name + SEPARATOR + rest, SEPARATOR) == |name|
  {
    var p := name + SEPARATOR + rest;
    assert p[|name|..] == SEPARATOR + rest;
    forall i | 0 <= i < |name|
      ensures !(SEPARATOR <= p[i..])
    {
      if SEPARATOR <= p[i..] {
        Inside(name, rest, i);
      }
    }
  }

  lemma Inside(name: bytes, rest: bytes, i: nat)
    requires i < |name| && SEPARATOR <= (name + SEPARATOR + rest)[i..]
    ensures SEPARATOR <= name[i..]
  {
    var p := name + SEPARATOR + rest;
    assert p[i..][0] == COLON && p[i..][1] == SLASH && p[i..][2] == SLASH;
    assert p[i] == COLON && p[i + 1] == SLASH && p[i + 2] == SLASH;
  }

  /** The components come back. */
  lemma AddressBack(t: Target)
    requires Clean(t) && InInt(t.port)
    ensures SplitPort(PrintAddress(t)) == (t.host, t.port)
  {
    hide Atoi, PrintInt;
    IndexOfSep(t.host, COLON, PrintInt(t.port));
    AtoiReadsBack(t.port);
  }

  lemma UserBack(t: Target, address: bytes)
    requires Clean(t)
    ensures SplitUser(t.user + [COLON] + t.pass + [AT] + address) == (t.user, t.pass, address)
  {
    var cred := t.user + [COLON] + t.pass;
    IndexOfSep(cred, AT, address);
    IndexOfSep(t.user, COLON, t.pass);
  }

  lemma SpaceBack(t: Target)
    requires Clean(t)
    ensures SplitSpace(PrintAuthority(t) + [SLASH] + t.space) == (PrintAuthority(t), t.space)
  {
    assert forall i :: 0 <= i < |PrintInt(t.port)| ==> IsDigit(PrintInt(t.port)[i]) || PrintInt(t.port)[i] == 45;
    IndexOfSep(PrintAuthority(t), SLASH, t.space);
  }

  lemma PrintedBack(t: Target)
    requires Clean(t) && Holdable(t)
    ensures Parse(Print(t)) == Some(t)
  {
    hide SplitName, SplitSpace, SplitUser, SplitPort, PrintInt, CString;
    PrintHasNoNul(t);
    NoNul(Print(t));
    NameBack(t, PrintAuthority(t) + [SLASH] + t.space);
    SpaceBack(t);
    UserBack(t, PrintAddress(t));
    AddressBack(t);
  }

  /** Whatever is parsed, the components found hold none of the separators that end them. */
  lemma ParsedIsClean(url: bytes)
    requires Parse(url).Some?
    ensures Clean(Parse(url).value)
  {
    var s := CString(url);
    var t := Parse(url).value;
    var rest := SplitName(s).value.1;
    NameIsClean(s);
    hide Find, SplitName;
    AuthorityIsClean(rest);
  }

  lemma NameIsClean(s: bytes)
    requires SplitName(s).Some?
    ensures var name := SplitName(s).value.0;
            !(SLASHES <= name) && forall i :: 0 <= i <= |name| ==> !(SEPARATOR <= name[i..])
  {
    hide Find;
    if SCHEME + SLASHES <= s {
      assert DEFAULT_NAME[0] != SLASH;
      assert COLON !in DEFAULT_NAME;
      forall i | 0 <= i <= |DEFAULT_NAME|
        ensures !(SEPARATOR <= DEFAULT_NAME[i..])
      {
        if i < |DEFAULT_NAME| {
          assert DEFAULT_NAME[i..][0] == DEFAULT_NAME[i] != COLON;
        }
      }
    } else {
      var p := s[10..];
      var end := Find(p, SEPARATOR);
      var name := p[..end];
      if SLASHES <= name {
        BothSlashes(s);
      }
      forall i | 0 <= i <= |name|
        ensures !(SEPARATOR <= name[i..])
      {
        if i < |name| {
          assert name[i..] <= p[i..];
        }
      }
    }
  }

  lemma BothSlashes(s: bytes)
    requires SCHEME <= s && SLASHES <= s[10..]
    ensures SCHEME + SLASHES <= s
  {
    assert s == s[..10] + s[10..];
    assert s[..10] == SCHEME;
  }

  lemma AuthorityIsClean(rest: bytes)
    ensures var (authority, _) := SplitSpace(rest);
            var (user, pass, address) := SplitUser(authority);
            var (host, _) := SplitPort(address);
            && COLON !in user && AT !in user && SLASH !in user && AT !in pass && SLASH !in pass
            && COLON !in host && SLASH !in host
  {
    hide SplitSpace, SplitUser, SplitPort;
    var authority := SplitSpace(rest).0;
    NoSlash(rest);
    UserIsClean(authority);
    HostIsClean(SplitUser(authority).2);
  }

  lemma NoSlash(rest: bytes)
    ensures SLASH !in SplitSpace(rest).0
  {
  }

  lemma UserIsClean(p: bytes)
    requires SLASH !in p
    ensures var (user, pass, address) := SplitUser(p);
            && COLON !in user && AT !in user && SLASH !in user && AT !in pass && SLASH !in pass && SLASH !in address
  {
    assert COLON !in GUEST && AT !in GUEST && SLASH !in GUEST;
  }

  lemma HostIsClean(p: bytes)
    requires SLASH !in p
    ensures COLON !in SplitPort(p).0 && SLASH !in SplitPort(p).0
  {
    hide Atoi;
  }

  /** Parsing a printed URL returns the components exactly when they are clean: passwords may hold `:` and
      spaces may hold `/`. */
  lemma RoundTrip(t: Target)
    requires Holdable(t)
    ensures Parse(Print(t)) == Some(t) <==> Clean(t)
  {
    hide Print, Clean, Parse;
    if Clean(t) {
      PrintedBack(t);
    }
    if Parse(Print(t)) == Some(t) {
      ParsedIsClean(Print(t));
    }
  }

  // ---------------------------------------------------------------- the 512-byte buffer

  /** What `snprintf` leaves room for. */
  const URL_ROOM: nat := 511

  function Printed(t: Target): bytes
  {
    if |Print(t)| <= URL_ROOM then Print(t) else Print(t)[..URL_ROOM]
  }

  /** Everything in front of the host. */
  function Front(t: Target): bytes {
    SCHEME + t.name + SEPARATOR + (t.user + [COLON] + t.pass + [AT])
  }

  /** What is cut away is what the parser fills in: the default space, with the default port or a port of 0; and where
      the cut falls in front of the host, the default user and password, with the user's name as host. */
  predicate CutWell(t: Target) {
    && t.space == RTPE_CALLS
    && var room := URL_ROOM as int - |Front(t)|;
       if room < 0 then GuestCut(t, URL_ROOM as int - 13 - |t.name|)
       else
         || room == |PrintAddress(t)|
         || (t.port == 0 && room == |t.host| + 1)
         || (t.port == DEFAULT_PORT && room == |t.host|)
  }

  /** Room for k bytes behind the `://`. */
  predicate GuestCut(t: Target, k: int) {
    && t.user == GUEST && t.pass == []
    && ((0 <= k <= 5 && t.host == GUEST[..k] && t.port == DEFAULT_PORT) || (k == 6 && t.host == GUEST && t.port == 0))
  }

  /** A printed number without its last digits is smaller, unless it is 0. */
  lemma {:induction false} FewerDigits(n: nat, i: nat)
    requires i < |Digits(n)|
    ensures Number(Digits(n)[..i]) <= n && (Number(Digits(n)[..i]) == n ==> n == 0 && i == 0)
    decreases n
  {
    if n < 10 {
      assert Digits(n)[..i] == [];
    } else {
      var d := Digits(n / 10);
      assert Digits(n)[..i] == d[..i];
      if i == |d| {
        assert d[..i] == d;
        NumberOfDigits(n / 10);
      } else {
        FewerDigits(n / 10, i);
      }
    }
  }

  lemma AtoiFewer(n: int, i: nat)
    requires InInt(n) && i < |PrintInt(n)|
    ensures Atoi(PrintInt(n)[..i]) == n <==> n == 0
  {
    hide Number, Digits, Strtol;
    var m := if n < 0 then -n else n;
    var j := if n < 0 && i > 0 then i - 1 else i;
    var d := if n < 0 && i == 0 then [] else Digits(m)[..j];
    assert forall k :: 0 <= k < |d| ==> IsDigit(d[k]);
    StrtolDigits(d);
    NumberOfNothing();
    if d != [] || n >= 0 {
      FewerDigits(m, j);
    }
    if n < 0 && i > 0 {
      assert PrintInt(n)[..i] == [45] + d;
      FewerDigits(m, j);
    } else {
      assert PrintInt(n)[..i] == d;
    }
    if n == 0 {
      DigitOfZero();
    }
  }

  lemma DigitOfZero()
    ensures |Digits(0)| == 1 && |PrintInt(0)| == 1
  {
  }

  lemma NumberOfNothing()
    ensures Number([]) == 0
  {
  }

  /** The address, cut short. */
  lemma ShortAddress(t: Target, j: nat)
    requires Clean(t) && InInt(t.port) && j < |PrintAddress(t)|
    ensures SplitPort(PrintAddress(t)[..j]) == (t.host, t.port)
            <==> (t.port == 0 && j == |t.host| + 1) || (t.port == DEFAULT_PORT && j == |t.host|)
  {
    hide Atoi, PrintInt;
    var r := PrintAddress(t)[..j];
    var n := |t.host|;
    if j <= n {
      assert r == t.host[..j];
      assert COLON !in r;
      assert IndexOf(r, COLON) == |r|;
      assert j == n ==> r == t.host;
    } else {
      var i := j - n - 1;
      assert r == t.host + [COLON] + PrintInt(t.port)[..i];
      IndexOfSep(t.host, COLON, PrintInt(t.port)[..i]);
      AtoiFewer(t.port, i);
      if t.port == 0 {
        DigitOfZero();
      }
    }
  }

  /** A cut inside the space loses the space; a cut before it leaves the default one. */
  lemma CutParse(t: Target)
    requires Clean(t) && Holdable(t) && |Front(t)| <= URL_ROOM < |Print(t)|
    ensures Parse(Printed(t)) == Some(t) <==> CutWell(t)
  {
    hide SplitName, SplitUser, SplitPort, PrintInt, CString, Atoi;
    var address := PrintAddress(t);
    var all := address + [SLASH] + t.space;
    var room := URL_ROOM - |Front(t)|;
    var r := all[..room];
    FrontOfPrint(t);
    assert Printed(t) == Front(t) + r;
    PrintHasNoNul(t);
    NoNul(Printed(t));
    var rest := t.user + [COLON] + t.pass + [AT] + r;
    assert Front(t) + r == SCHEME + t.name + SEPARATOR + rest;
    NameBack(t, rest);
    NoSlashBefore(t);
    if room > |address| {
      var sp := t.space[..room - |address| - 1];
      var front := t.user + [COLON] + t.pass + [AT] + address;
      assert rest == front + [SLASH] + sp;
      IndexOfSep(front, SLASH, sp);
      assert |sp| < |t.space|;
    } else {
      assert r == address[..room];
      assert SLASH !in rest;
      assert IndexOf(rest, SLASH) == |rest|;
      UserBack(t, r);
      if room < |address| {
        ShortAddress(t, room);
      } else {
        assert r == address;
        AddressBack(t);
      }
    }
  }

  lemma NoSlashBefore(t: Target)
    requires Clean(t)
    ensures SLASH !in t.user + [COLON] + t.pass + [AT] + PrintAddress(t)
  {
    assert forall i :: 0 <= i < |PrintInt(t.port)| ==> IsDigit(PrintInt(t.port)[i]) || PrintInt(t.port)[i] == 45;
  }

  lemma FrontOfPrint(t: Target)
    ensures Print(t) == Front(t) + (PrintAddress(t) + [SLASH] + t.space)
  {
    hide PrintInt, SCHEME, SEPARATOR;
  }

  /** A cut inside the name leaves no separator. */
  lemma CutName(name: bytes, c: bytes)
    requires (forall i :: 0 <= i <= |name| ==> !(SEPARATOR <= name[i..])) && !(SLASHES <= name)
    requires 10 <= |c| < 13 + |name| && c <= SCHEME + name + SEPARATOR
    ensures SplitName(c) == None
  {
    hide Find;
    var s := SCHEME + name + SEPARATOR;
    NotDefault(name, []);
    assert s + [] == s;
    assert SCHEME <= s && SCHEME <= c;
    assert SCHEME + SLASHES <= c ==> SCHEME + SLASHES <= s;
    var p := c[10..];
    assert s[10..] == name + SEPARATOR + [];
    assert p <= name + SEPARATOR + [];
    var end := Find(p, SEPARATOR);
    if end < |p| {
      assert SEPARATOR <= (name + SEPARATOR + [])[end..];
      Inside(name, [], end);
    }
  }

  /** A cut in front of the host leaves no `@`, so all that is left is taken for an address. */
  lemma CutUser(t: Target, rest: bytes)
    requires Clean(t) && rest <= t.user + [COLON] + t.pass
    ensures SplitSpace(rest) == (rest, RTPE_CALLS) && SplitUser(rest) == (GUEST, [], rest)
    ensures SplitPort(rest) == if |rest| <= |t.user| then (t.user[..|rest|], DEFAULT_PORT)
                               else (t.user, Atoi(t.pass[..|rest| - |t.user| - 1]))
  {
    hide Atoi;
    var all := t.user + [COLON] + t.pass;
    assert rest == all[..|rest|];
    assert SLASH !in all && AT !in all;
    assert IndexOf(rest, SLASH) == |rest| && IndexOf(rest, AT) == |rest|;
    if |rest| <= |t.user| {
      assert rest == t.user[..|rest|];
      assert IndexOf(rest, COLON) == |rest|;
    } else {
      var pass := t.pass[..|rest| - |t.user| - 1];
      assert rest == t.user + [COLON] + pass;
      IndexOfSep(t.user, COLON, pass);
    }
  }

  lemma CutFront(t: Target)
    requires Clean(t) && Holdable(t) && |Front(t)| > URL_ROOM
    ensures Parse(Printed(t)) == Some(t) <==> CutWell(t)
  {
    hide SplitName, SplitUser, SplitPort, SplitSpace, PrintInt, CString, Atoi;
    FrontOfPrint(t);
    var c := Front(t)[..URL_ROOM];
    assert Printed(t) == c;
    PrintHasNoNul(t);
    NoNul(c);
    var named := SCHEME + t.name + SEPARATOR;
    if URL_ROOM < |named| {
      assert c <= named;
      CutName(t.name, c);
    } else {
      var rest := (t.user + [COLON] + t.pass + [AT])[..URL_ROOM - |named|];
      assert c == named + rest && rest <= t.user + [COLON] + t.pass;
      NameBack(t, rest);
      CutUser(t, rest);
      GuestHost(t, rest);
    }
  }

  lemma GuestHost(t: Target, rest: bytes)
    requires rest <= t.user + [COLON] + t.pass
    ensures GuestCut(t, |rest|) <==>
            && t.user == GUEST && t.pass == []
            && (t.host, t.port) == if |rest| <= |t.user| then (t.user[..|rest|], DEFAULT_PORT)
                                   else (t.user, Atoi(t.pass[..|rest| - |t.user| - 1]))
  {
    NothingIsZero();
    hide Atoi;
    assert |GUEST| == 5 && GUEST[..5] == GUEST;
  }

  lemma NothingIsZero()
    ensures Atoi([]) == 0
  {
    NumberOfNothing();
    StrtolDigits([]);
  }

  /** Through the 512-byte buffer the components come back if and only if they are clean and either nothing is cut away
      or the parser fills in what is. */
  lemma CutRoundTrip(t: Target)
    requires Holdable(t)
    ensures Parse(Printed(t)) == Some(t) <==> Clean(t) && (|Print(t)| <= 511 || CutWell(t))
  {
    hide Print, Clean, Parse, CutWell, Front;
    if Parse(Printed(t)) == Some(t) {
      ParsedIsClean(Printed(t));
    }
    if Clean(t) {
      if |Print(t)| <= URL_ROOM {
        PrintedBack(t);
      } else if |Front(t)| <= URL_ROOM {
        CutParse(t);
      } else {
        CutFront(t);
      }
    }
  }

  /** A URL is refused exactly when it is empty, has another scheme, or names a cluster without `://`. */
  lemma RefusedExactly(url: bytes)
    ensures Parse(url).None? <==>
              var s := CString(url);
              || url == [] || !(SCHEME <= s)
              || (!(SLASHES <= s[10..]) && forall i :: 0 <= i <= |s| - 10 ==> !(SEPARATOR <= s[10..][i..]))
  {
    hide Find, SplitSpace, SplitUser, SplitPort;
    var s := CString(url);
    if SCHEME <= s {
      if SLASHES <= s[10..] {
        BothSlashes(s);
      } else {
        NoSlashes(s);
        assert s[10..][|s| - 10..] == [];
      }
    }
    assert SCHEME <= SCHEME + SLASHES;
  }

  lemma NoSlashes(s: bytes)
    requires SCHEME <= s && !(SLASHES <= s[10..])
    ensures !(SCHEME + SLASHES <= s)
  {
    if SCHEME + SLASHES <= s {
      SlashesBehind(s);
    }
  }

  lemma SlashesBehind(s: bytes)
    requires SCHEME + SLASHES <= s
    ensures SLASHES <= s[10..]
  {
    var q := SCHEME + SLASHES;
    assert s[10] == q[10] && s[11] == q[11];
  }

  // ---------------------------------------------------------------- what may be left out

  datatype Credentials = NoUser | User(user: bytes) | UserPass(user: bytes, pass: bytes)

  /** A URL with or without each component but the host. */
  datatype Short = Short(name: Option<bytes>, cred: Credentials, host: bytes, port: Option<int>, space: Option<bytes>)

  function WriteUser(c: Credentials): bytes {
    match c
    case NoUser => []
    case User(u) => u + Ascii("@")
    case UserPass(u, p) => u + Ascii(":") + p + Ascii("@")
  }

  function WriteAddress(w: Short): bytes {
    w.host + if w.port.Some? then Ascii(":") + PrintInt(w.port.value) else []
  }

  function WriteSpace(w: Short): bytes {
    if w.space.Some? then Ascii("/") + w.space.value else []
  }

  function Write(w: Short): bytes {
    (if w.name.Some? then Ascii("tarantool:") + w.name.value + Ascii("://") else Ascii("tarantool://"))
    + ((WriteUser(w.cred) + WriteAddress(w)) + WriteSpace(w))
  }

  /** What is written has no NUL and no separator that would end a component early; without a user the host has
      no `@` either. */
  predicate Separable(w: Short) {
    && (w.name.Some? ==>
          && 0 !in w.name.value && !(SLASHES <= w.name.value)
          && forall i :: 0 <= i <= |w.name.value| ==> !(SEPARATOR <= w.name.value[i..]))
    && (w.cred.User? || w.cred.UserPass? ==>
          0 !in w.cred.user && COLON !in w.cred.user && AT !in w.cred.user && SLASH !in w.cred.user)
    && (w.cred.UserPass? ==> 0 !in w.cred.pass && AT !in w.cred.pass && SLASH !in w.cred.pass)
    && 0 !in w.host && COLON !in w.host && SLASH !in w.host && (w.cred.NoUser? ==> AT !in w.host)
    && (w.port.Some? ==> InInt(w.port.value)) && (w.space.Some? ==> 0 !in w.space.value)
  }

  lemma Marks()
    ensures Ascii("@") == [AT] && Ascii(":") == [COLON] && Ascii("/") == [SLASH] && Ascii("://") == SEPARATOR
    ensures Ascii("tarantool:") == SCHEME && Ascii("tarantool://") == SCHEME + SLASHES
    ensures Ascii("default") == DEFAULT_NAME && Ascii("guest") == GUEST && Ascii("rtpe_calls") == RTPE_CALLS
  {
    SchemeMarks();
    NameMarks();
  }

  lemma SchemeMarks()
    ensures Ascii("tarantool:") == SCHEME && Ascii("tarantool://") == SCHEME + SLASHES
  {
  }

  lemma NameMarks()
    ensures Ascii("default") == DEFAULT_NAME && Ascii("guest") == GUEST && Ascii("rtpe_calls") == RTPE_CALLS
  {
  }

  lemma NumberMarks(n: int)
    ensures SLASH !in PrintInt(n) && AT !in PrintInt(n) && 0 !in PrintInt(n)
  {
    assert forall i :: 0 <= i < |PrintInt(n)| ==> IsDigit(PrintInt(n)[i]) || PrintInt(n)[i] == 45;
  }

  lemma ShortPort(w: Short)
    requires Separable(w)
    ensures SplitPort(WriteAddress(w)) == (w.host, if w.port.Some? then w.port.value else 3301)
    ensures SLASH !in WriteAddress(w) && 0 !in WriteAddress(w) && (w.cred.NoUser? ==> AT !in WriteAddress(w))
  {
    hide Atoi, PrintInt, Ascii;
    Marks();
    if w.port.Some? {
      NumberMarks(w.port.value);
      IndexOfSep(w.host, COLON, PrintInt(w.port.value));
      AtoiReadsBack(w.port.value);
      assert WriteAddress(w) == w.host + [COLON] + PrintInt(w.port.value);
    } else {
      assert WriteAddress(w) == w.host;
    }
  }

  lemma ShortUser(w: Short)
    requires Separable(w)
    ensures SplitUser(WriteUser(w.cred) + WriteAddress(w)) == (
              if w.cred.NoUser? then Ascii("guest") else w.cred.user,
              if w.cred.UserPass? then w.cred.pass else [],
              WriteAddress(w))
    ensures SLASH !in WriteUser(w.cred) && 0 !in WriteUser(w.cred)
  {
    hide Ascii, WriteAddress;
    Marks();
    ShortPort(w);
    var address := WriteAddress(w);
    match w.cred
    case NoUser => assert WriteUser(w.cred) + address == address;
    case User(u) => IndexOfSep(u, AT, address);
    case UserPass(u, p) =>
      IndexOfSep(u + [COLON] + p, AT, address);
      IndexOfSep(u, COLON, p);
  }

  lemma AtSlash(authority: bytes, space: Option<bytes>)
    requires SLASH !in authority
    ensures SplitSpace(authority + if space.Some? then [SLASH] + space.value else [])
            == (authority, if space.Some? then space.value else RTPE_CALLS)
  {
    if space.Some? {
      IndexOfSep(authority, SLASH, space.value);
      assert authority + ([SLASH] + space.value) == authority + [SLASH] + space.value;
    } else {
      assert authority + [] == authority;
    }
  }

  lemma ShortSpace(w: Short)
    requires Separable(w)
    ensures var authority := WriteUser(w.cred) + WriteAddress(w);
            && SplitSpace(authority + WriteSpace(w))
               == (authority, if w.space.Some? then w.space.value else Ascii("rtpe_calls"))
            && 0 !in authority + WriteSpace(w)
  {
    hide Ascii, WriteAddress, WriteUser, SplitSpace, SplitUser, SplitPort;
    Marks();
    ShortPort(w);
    ShortUser(w);
    AtSlash(WriteUser(w.cred) + WriteAddress(w), w.space);
  }

  lemma ShortName(w: Short, rest: bytes)
    requires Separable(w) && 0 !in rest
    ensures var url := (if w.name.Some? then Ascii("tarantool:") + w.name.value + Ascii("://")
                        else Ascii("tarantool://")) + rest;
            && SplitName(url) == Some((if w.name.Some? then w.name.value else Ascii("default"), rest))
            && 0 !in url && url != []
  {
    hide Ascii, Find;
    Marks();
    if w.name.Some? {
      var name := w.name.value;
      NotDefault(name, rest);
      FirstSeparator(name, rest);
      Behind(name, rest);
    } else {
      assert (SCHEME + SLASHES + rest)[12..] == rest;
    }
  }

  /** Every component that is left out gets its default: the cluster name, the user, the password (alone or with the
      user), the port and the space; and every one that is there is taken as it is. */
  lemma DefaultsFilled(w: Short)
    requires Separable(w)
    ensures Parse(Write(w)) == Some(Target(
              if w.name.Some? then w.name.value else Ascii("default"),
              if w.cred.NoUser? then Ascii("guest") else w.cred.user,
              if w.cred.UserPass? then w.cred.pass else [],
              w.host,
              if w.port.Some? then w.port.value else 3301,
              if w.space.Some? then w.space.value else Ascii("rtpe_calls")))
  {
    hide Ascii, SplitName, SplitSpace, SplitUser, SplitPort, WriteUser, WriteAddress, WriteSpace, Separable, CString;
    ShortSpace(w);
    ShortName(w, (WriteUser(w.cred) + WriteAddress(w)) + WriteSpace(w));
    NoNul(Write(w));
    ShortUser(w);
    ShortPort(w);
  }
}
