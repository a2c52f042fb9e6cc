/**
 The static table of HPACK (appendix A of RFC 7541) and the header tokens derived from it.
 */
module HpackStatic {
  import opened HpackRing

  const STATIC_TABLE_LENGTH: int := 61

  /** One row: the field and the token shared by all rows of the same name. */
  datatype Row = Row(field: Field, token: nat)

  function StaticRow(i: nat): (r: Row)
    requires i < STATIC_TABLE_LENGTH
  {
    match i
    case 0 => Row(Field(":authority", ""), 0)
    case 1 => Row(Field(":method", "GET"), 1)
    case 2 => Row(Field(":method", "POST"), 1)
    case 3 => Row(Field(":path", "/"), 3)
    case 4 => Row(Field(":path", "/index.html"), 3)
    case 5 => Row(Field(":scheme", "http"), 5)
    case 6 => Row(Field(":scheme", "https"), 5)
    case 7 => Row(Field(":status", "200"), 7)
    case 8 => Row(Field(":status", "204"), 7)
    case 9 => Row(Field(":status", "206"), 7)
    case 10 => Row(Field(":status", "304"), 7)
    case 11 => Row(Field(":status", "400"), 7)
    case 12 => Row(Field(":status", "404"), 7)
    case 13 => Row(Field(":status", "500"), 7)
    case 14 => Row(Field("accept-charset", ""), 14)
    case 15 => Row(Field("accept-encoding", "gzip, deflate"), 15)
    case 16 => Row(Field("accept-language", ""), 16)
    case 17 => Row(Field("accept-ranges", ""), 17)
    case 18 => Row(Field("accept", ""), 18)
    case 19 => Row(Field("access-control-allow-origin", ""), 19)
    case 20 => Row(Field("age", ""), 20)
    case 21 => Row(Field("allow", ""), 21)
    case 22 => Row(Field("authorization", ""), 22)
    case 23 => Row(Field("cache-control", ""), 23)
    case 24 => Row(Field("content-disposition", ""), 24)
    case 25 => Row(Field("content-encoding", ""), 25)
    case 26 => Row(Field("content-language", ""), 26)
    case 27 => Row(Field("content-length", ""), 27)
    case 28 => Row(Field("content-location", ""), 28)
    case 29 => Row(Field("content-range", ""), 29)
    case 30 => Row(Field("content-type", ""), 30)
    case 31 => Row(Field("cookie", ""), 31)
    case 32 => Row(Field("date", ""), 32)
    case 33 => Row(Field("etag", ""), 33)
    case 34 => Row(Field("expect", ""), 34)
    case 35 => Row(Field("expires", ""), 35)
    case 36 => Row(Field("from", ""), 36)
    case 37 => Row(Field("host", ""), 37)
    case 38 => Row(Field("if-match", ""), 38)
    case 39 => Row(Field("if-modified-since", ""), 39)
    case 40 => Row(Field("if-none-match", ""), 40)
    case 41 => Row(Field("if-range", ""), 41)
    case 42 => Row(Field("if-unmodified-since", ""), 42)
    case 43 => Row(Field("last-modified", ""), 43)
    case 44 => Row(Field("link", ""), 44)
    case 45 => Row(Field("location", ""), 45)
    case 46 => Row(Field("max-forwards", ""), 46)
    case 47 => Row(Field("proxy-authenticate", ""), 47)
    case 48 => Row(Field("proxy-authorization", ""), 48)
    case 49 => Row(Field("range", ""), 49)
    case 50 => Row(Field("referer", ""), 50)
    case 51 => Row(Field("refresh", ""), 51)
    case 52 => Row(Field("retry-after", ""), 52)
    case 53 => Row(Field("server", ""), 53)
    case 54 => Row(Field("set-cookie", ""), 54)
    case 55 => Row(Field("strict-transport-security", ""), 55)
    case 56 => Row(Field("transfer-encoding", ""), 56)
    case 57 => Row(Field("user-agent", ""), 57)
    case 58 => Row(Field("vary", ""), 58)
    case 59 => Row(Field("via", ""), 59)
    case _ => Row(Field("www-authenticate", ""), 60)
  }

  /** The rows of one token stand together, and all have the name of the first. */
  lemma RowTokens(i: nat)
    requires i < STATIC_TABLE_LENGTH
    ensures StaticRow(i).token <= i
    ensures StaticRow(StaticRow(i).token).field.name == StaticRow(i).field.name
    ensures StaticRow(StaticRow(i).token).token == StaticRow(i).token
  {
  }

  lemma RowsTogether(i: nat)
    requires 0 < i < STATIC_TABLE_LENGTH && StaticRow(i).token < i
    ensures StaticRow(i - 1).token == StaticRow(i).token
  {
  }

  // ----- the tokens -----

  const TOKENS: int := 66

  /** The name that `lookup_token` compares with before it returns a token; none for the rows of a repeated name. */
  function TokenName(t: nat): (name: string)
    requires t < TOKENS
  {
    match t
    case 0 => ":authority"
    case 1 => ":method"
    case 3 => ":path"
    case 5 => ":scheme"
    case 7 => ":status"
    case 14 => "accept-charset"
    case 15 => "accept-encoding"
    case 16 => "accept-language"
    case 17 => "accept-ranges"
    case 18 => "accept"
    case 19 => "access-control-allow-origin"
    case 20 => "age"
    case 21 => "allow"
    case 22 => "authorization"
    case 23 => "cache-control"
    case 24 => "content-disposition"
    case 25 => "content-encoding"
    case 26 => "content-language"
    case 27 => "content-length"
    case 28 => "content-location"
    case 29 => "content-range"
    case 30 => "content-type"
    case 31 => "cookie"
    case 32 => "date"
    case 33 => "etag"
    case 34 => "expect"
    case 35 => "expires"
    case 36 => "from"
    case 37 => "host"
    case 38 => "if-match"
    case 39 => "if-modified-since"
    case 40 => "if-none-match"
    case 41 => "if-range"
    case 42 => "if-unmodified-since"
    case 43 => "last-modified"
    case 44 => "link"
    case 45 => "location"
    case 46 => "max-forwards"
    case 47 => "proxy-authenticate"
    case 48 => "proxy-authorization"
    case 49 => "range"
    case 50 => "referer"
    case 51 => "refresh"
    case 52 => "retry-after"
    case 53 => "server"
    case 54 => "set-cookie"
    case 55 => "strict-transport-security"
    case 56 => "transfer-encoding"
    case 57 => "user-agent"
    case 58 => "vary"
    case 59 => "via"
    case 60 => "www-authenticate"
    case 61 => "te"
    case 62 => "connection"
    case 63 => "keep-alive"
    case 64 => "proxy-connection"
    case 65 => "upgrade"
    case _ => ""
  }

  /** The tokens that `lookup_token` compares with, chosen by length and last character; -1 for none. */
  function Branch(len: nat, last: char): (r: (int, int))
    ensures -1 <= r.0 < TOKENS && -1 <= r.1 < TOKENS
  {
    match len
    case 2 => if last == 'e' then (61, -1) else (-1, -1)
    case 3 => if last == 'a' then (59, -1) else if last == 'e' then (20, -1) else (-1, -1)
    case 4 =>
      if last == 'e' then (32, -1)
      else if last == 'g' then (33, -1)
      else if last == 'k' then (44, -1)
      else if last == 'm' then (36, -1)
      else if last == 't' then (37, -1)
      else if last == 'y' then (58, -1)
      else (-1, -1)
    case 5 =>
      if last == 'e' then (49, -1)
      else if last == 'h' then (3, -1)
      else if last == 'w' then (21, -1)
      else (-1, -1)
    case 6 =>
      if last == 'e' then (31, -1)
      else if last == 'r' then (53, -1)
      else if last == 't' then (18, 34)
      else (-1, -1)
    case 7 =>
      if last == 'd' then (1, -1)
      else if last == 'e' then (5, 65)
      else if last == 'h' then (51, -1)
      else if last == 'r' then (50, -1)
      else if last == 's' then (7, 35)
      else (-1, -1)
    case 8 =>
      if last == 'e' then (41, -1)
      else if last == 'h' then (38, -1)
      else if last == 'n' then (45, -1)
      else (-1, -1)
    case 10 =>
      if last == 'e' then (63, 54)
      else if last == 'n' then (62, -1)
      else if last == 't' then (57, -1)
      else if last == 'y' then (0, -1)
      else (-1, -1)
    case 11 => if last == 'r' then (52, -1) else (-1, -1)
    case 12 => if last == 'e' then (30, -1) else if last == 's' then (46, -1) else (-1, -1)
    case 13 =>
      if last == 'd' then (43, -1)
      else if last == 'e' then (29, -1)
      else if last == 'h' then (40, -1)
      else if last == 'l' then (23, -1)
      else if last == 'n' then (22, -1)
      else if last == 's' then (17, -1)
      else (-1, -1)
    case 14 => if last == 'h' then (27, -1) else if last == 't' then (14, -1) else (-1, -1)
    case 15 => if last == 'e' then (16, -1) else if last == 'g' then (15, -1) else (-1, -1)
    case 16 =>
      if last == 'e' then (26, 60)
      else if last == 'g' then (25, -1)
      else if last == 'n' then (28, 64)
      else (-1, -1)
    case 17 => if last == 'e' then (39, -1) else if last == 'g' then (56, -1) else (-1, -1)
    case 18 => if last == 'e' then (47, -1) else (-1, -1)
    case 19 => if last == 'e' then (42, -1) else if last == 'n' then (24, 48) else (-1, -1)
    case 25 => if last == 'y' then (55, -1) else (-1, -1)
    case 27 => if last == 'n' then (19, -1) else (-1, -1)
    case _ => (-1, -1)
  }

  /** `lookup_token`: the token of a header name, -1 for names the library does not know. */
  function LookupToken(name: string): (t: int)
    ensures -1 <= t < TOKENS
    ensures t >= 0 ==> name != "" && TokenName(t) == name
  {
    if name == [] then -1
    else
      var (a, b) := Branch(|name|, name[|name| - 1]);
      if a >= 0 && name == TokenName(a) then a
      else if b >= 0 && name == TokenName(b) then b
      else -1
  }

  /** The tree compares a name with its own token, and with no other of the same name before it. */
  predicate Listed(t: nat)
    requires t < TOKENS
  {
    var name := TokenName(t);
    && name != []
    && var (a, b) := Branch(|name|, name[|name| - 1]);
       t == a || (t == b && (a == -1 || TokenName(a) != name))
  }

  lemma Listed1(t: nat)
    requires 0 <= t < 16 && TokenName(t) != ""
    ensures Listed(t)
  {
  }

  lemma Listed2(t: nat)
    requires 16 <= t < 31 && TokenName(t) != ""
    ensures Listed(t)
  {
  }

  lemma Listed3(t: nat)
    requires 31 <= t < 46 && TokenName(t) != ""
    ensures Listed(t)
  {
  }

  lemma Listed4(t: nat)
    requires 46 <= t < 56 && TokenName(t) != ""
    ensures Listed(t)
  {
  }

  lemma Listed5(t: nat)
    requires 56 <= t < STATIC_TABLE_LENGTH && TokenName(t) != ""
    ensures Listed(t)
  {
  }

  lemma Listed6(t: nat)
    requires STATIC_TABLE_LENGTH <= t < TOKENS && TokenName(t) != ""
    ensures Listed(t)
  {
  }

  /** The decision tree misses none of its names: each token with a name finds itself. */
  lemma TreeIsComplete(t: nat)
    requires t < TOKENS && TokenName(t) != ""
    ensures LookupToken(TokenName(t)) == t
  {
    hide Branch;
    hide TokenName;
    hide StaticRow;
    if t < 16 {
      Listed1(t);
    } else if t < 31 {
      Listed2(t);
    } else if t < 46 {
      Listed3(t);
    } else if t < 56 {
      Listed4(t);
    } else if t < STATIC_TABLE_LENGTH {
      Listed5(t);
    } else {
      Listed6(t);
    }
  }

  /** The names of the tree are those of the table: a token has a name exactly if it is the first row of it. */
  lemma StaticTokenName(t: nat)
    requires t < STATIC_TABLE_LENGTH
    ensures TokenName(t) == if StaticRow(t).token == t then StaticRow(t).field.name else ""
    ensures StaticRow(t).field.name != ""
  {
    if t < 20 {
      SameNames1(t);
    } else if t < 40 {
      SameNames2(t);
    } else {
      SameNames3(t);
    }
  }

  predicate SameNames(t: nat)
    requires t < STATIC_TABLE_LENGTH
  {
    && TokenName(t) == (if StaticRow(t).token == t then StaticRow(t).field.name else "")
    && StaticRow(t).field.name != ""
  }

  lemma SameNames1(t: nat)
    requires t < 20
    ensures SameNames(t)
  {
  }

  lemma SameNames2(t: nat)
    requires 20 <= t < 40
    ensures SameNames(t)
  {
  }

  lemma SameNames3(t: nat)
    requires 40 <= t < STATIC_TABLE_LENGTH
    ensures SameNames(t)
  {
  }

  /** Every row's name has the row's token, which is the first row of that name. */
  lemma TokenOfRow(i: nat)
    requires i < STATIC_TABLE_LENGTH
    ensures LookupToken(StaticRow(i).field.name) == StaticRow(i).token
    ensures forall j | 0 <= j < STATIC_TABLE_LENGTH && StaticRow(j).field.name == StaticRow(i).field.name ::
              StaticRow(j).token == StaticRow(i).token <= j
  {
    hide StaticRow;
    hide TokenName;
    hide LookupToken;
    forall j | 0 <= j < STATIC_TABLE_LENGTH
      ensures LookupToken(StaticRow(j).field.name) == StaticRow(j).token <= j
    {
      RowTokens(j);
      StaticTokenName(StaticRow(j).token);
      TreeIsComplete(StaticRow(j).token);
    }
  }

  /** A token other than -1 belongs to one name only, so comparing tokens compares names. */
  lemma TokenDeterminesName(a: string, b: string)
    requires LookupToken(a) == LookupToken(b) != -1
    ensures a == b
  {
  }

  // ----- the search -----

  /** The scan over the rows that share a token, looking for the value. */
  function ScanRows(token: nat, value: string, i: nat): (r: int)
    ensures r == -1 || i <= r < STATIC_TABLE_LENGTH
    ensures r >= 0 ==> StaticRow(r).token == token && StaticRow(r).field.value == value
    decreases STATIC_TABLE_LENGTH - i
  {
    if i >= STATIC_TABLE_LENGTH || StaticRow(i).token != token then -1
    else if StaticRow(i).field.value == value then i
    else ScanRows(token, value, i + 1)
  }

  /** The scan finds the row it is looking for, from any earlier row of the same token. */
  lemma {:induction false} ScanFinds(i: nat, k: nat)
    requires i < STATIC_TABLE_LENGTH && StaticRow(i).token <= k <= i
    ensures ScanRows(StaticRow(i).token, StaticRow(i).field.value, k) >= 0
    ensures StaticRow(k).token == StaticRow(i).token
    decreases i - k
  {
    hide StaticRow;
    if k < i {
      ScanFinds(i, k + 1);
      RowsTogether(k + 1);
    }
  }

  ghost predicate StaticName(name: string) {
    exists i | 0 <= i < STATIC_TABLE_LENGTH :: StaticRow(i).field.name == name
  }

  ghost predicate InStatic(f: Field) {
    exists i | 0 <= i < STATIC_TABLE_LENGTH :: StaticRow(i).field == f
  }

  /** Where the static table holds the field, or -1. */
  function StaticIndex(f: Field): (r: int)
    ensures -1 <= r < STATIC_TABLE_LENGTH
    ensures r >= 0 ==> StaticRow(r).field == f
    ensures r >= 0 <==> InStatic(f)
  {
    StaticSearch(f);
    var t := LookupToken(f.name);
    if 0 <= t < STATIC_TABLE_LENGTH then ScanRows(t, f.value, t) else -1
  }

  lemma StaticSearch(f: Field)
    ensures var t := LookupToken(f.name);
            if 0 <= t < STATIC_TABLE_LENGTH then
              && (ScanRows(t, f.value, t) >= 0 ==> StaticRow(ScanRows(t, f.value, t)).field == f)
              && (ScanRows(t, f.value, t) >= 0 <==> InStatic(f))
            else !InStatic(f)
  {
    hide StaticRow;
    hide TokenName;
    hide ScanRows;
    var t := LookupToken(f.name);
    if 0 <= t < STATIC_TABLE_LENGTH {
      StaticTokenName(t);
      var r := ScanRows(t, f.value, t);
      if r >= 0 {
        RowTokens(r);
      }
    }
    hide LookupToken;
    if i :| 0 <= i < STATIC_TABLE_LENGTH && StaticRow(i).field == f {
      TokenOfRow(i);
      RowTokens(i);
      ScanFinds(i, StaticRow(i).token);
    }
  }

  // ----- the rows with a value -----

  /** The fields of the appendix that have a value, in its order. */
  const VALUED: seq<Field> := [
    Field(":method", "GET"), Field(":method", "POST"), Field(":path", "/"), Field(":path", "/index.html"),
    Field(":scheme", "http"), Field(":scheme", "https"), Field(":status", "200"), Field(":status", "204"),
    Field(":status", "206"), Field(":status", "304"), Field(":status", "400"), Field(":status", "404"),
    Field(":status", "500"), Field("accept-encoding", "gzip, deflate")]

  lemma ValuedAt(k: nat)
    requires k < 14
    ensures VALUED[k] == StaticRow(if k < 13 then k + 1 else 15).field
  {
  }

  /** A field with a value is in the table exactly if it is one of these. */
  lemma StaticValues(f: Field)
    requires f.value != ""
    ensures InStatic(f) <==> f in VALUED
  {
    hide StaticRow;
    if i :| 0 <= i < STATIC_TABLE_LENGTH && StaticRow(i).field == f {
      ValuedRow(i);
      ValuedAt(if i == 15 then 13 else i - 1);
    }
    if k :| 0 <= k < |VALUED| && VALUED[k] == f {
      ValuedAt(k);
    }
  }

  lemma ValuedRow(i: nat)
    requires i < STATIC_TABLE_LENGTH && StaticRow(i).field.value != ""
    ensures 1 <= i <= 13 || i == 15
  {
  }

  /** Dictionary order. */
  ghost predicate Sooner(a: string, b: string) {
    a < b || exists k | 0 <= k < |a| && k < |b| :: a[..k] == b[..k] && a[k] < b[k]
  }

  /** The rows of one name stand in the order of their values. */
  lemma SameNameSorted(i: nat, j: nat)
    requires i < j < STATIC_TABLE_LENGTH && StaticRow(i).field.name == StaticRow(j).field.name
    ensures Sooner(StaticRow(i).field.value, StaticRow(j).field.value)
  {
    SameName(i, j);
    var a, b := StaticRow(i).field.value, StaticRow(j).field.value;
    if i == 1 {
      assert a[0] < b[0] && a[..0] == b[..0];
    } else if i >= 7 {
      StatusSorted(i, j);
    }
  }

  lemma SameName(i: nat, j: nat)
    requires i < j < STATIC_TABLE_LENGTH && StaticRow(i).field.name == StaticRow(j).field.name
    ensures (i, j) in {(1, 2), (3, 4), (5, 6)} || 7 <= i < j <= 13
  {
    hide StaticRow;
    TokenOfRow(i);
    TokenIs(i);
    TokenIs(j);
  }

  lemma TokenIs(i: nat)
    requires i < STATIC_TABLE_LENGTH
    ensures StaticRow(i).token ==
            if 1 <= i <= 2 then 1 else if 3 <= i <= 4 then 3 else if 5 <= i <= 6 then 5
            else if 7 <= i <= 13 then 7 else i
  {
  }

  lemma StatusSorted(i: nat, j: nat)
    requires 7 <= i < j <= 13
    ensures Sooner(StaticRow(i).field.value, StaticRow(j).field.value)
  {
    var a, b := StaticRow(i).field.value, StaticRow(j).field.value;
    var k := if a[0] != b[0] then 0 else if a[1] != b[1] then 1 else 2;
    assert a[..k] == b[..k] && a[k] < b[k];
  }
}
