/**
 What a server makes of the client's stanzas, written without reference to how they are built: values
 in quotes, the text of an element, and the fields of a SCRAM message between commas.
 */
module Reader {
  import opened Alphabet

  const QUOTE: bv8 := 39
  const COMMA: bv8 := 44
  const LESS: bv8 := 60
  const GREATER: bv8 := 62

  /** The text in front of the first `c`, or all of it. */
  function UpTo(b: Bytes, c: bv8): Bytes {
    if b == [] || b[0] == c then [] else [b[0]] + UpTo(b[1..], c)
  }

  /** The text behind the first `c`, if there is one. */
  function Behind(b: Bytes, c: bv8): Bytes {
    if b == [] then [] else if b[0] == c then b[1..] else Behind(b[1..], c)
  }

  /** The `n`-th of the fields that are separated by `c`. */
  function Field(b: Bytes, c: bv8, n: nat): Bytes
    decreases n
  {
    if n == 0 then UpTo(b, c) else Field(Behind(b, c), c, n - 1)
  }

  lemma {:induction false} SplitAtFirst(front: Bytes, c: bv8, back: Bytes)
    requires c !in front
    ensures UpTo(front + [c] + back, c) == front && Behind(front + [c] + back, c) == back
  {
    var b := front + [c] + back;
    if front == [] {
      assert b[0] == c && b[1..] == back;
    } else {
      SplitAtFirst(front[1..], c, back);
      assert b[0] == front[0] && b[1..] == front[1..] + [c] + back;
      assert front == [front[0]] + front[1..];
    }
  }

  lemma {:induction false} UpToAll(b: Bytes, c: bv8)
    ensures c !in UpTo(b, c) && UpTo(b, c) <= b
    ensures c !in b ==> UpTo(b, c) == b
  {
    if b != [] && b[0] != c {
      UpToAll(b[1..], c);
      assert b == [b[0]] + b[1..];
    }
  }

  /** The first field and those behind it. */
  lemma FieldStep(front: Bytes, c: bv8, back: Bytes, n: nat)
    requires c !in front
    ensures Field(front + [c] + back, c, 0) == front
    ensures Field(front + [c] + back, c, n + 1) == Field(back, c, n)
  {
    SplitAtFirst(front, c, back);
  }

  lemma AsciiConcat(s: string, t: string)
    ensures Ascii(s + t) == Ascii(s) + Ascii(t)
  {
    hide ByteOf;
  }

  lemma QuoteByte(c: char)
    ensures ByteOf(c) == 39 <==> c == '\''
  {
  }

  lemma GreaterByte(c: char)
    ensures ByteOf(c) == 62 <==> c == '>'
  {
  }

  lemma AsciiLacks(s: string)
    ensures '\'' !in s ==> QUOTE !in Ascii(s)
    ensures '>' !in s ==> GREATER !in Ascii(s)
  {
    hide ByteOf;
    forall i | 0 <= i < |s|
      ensures Ascii(s)[i] == QUOTE <==> s[i] == '\''
      ensures Ascii(s)[i] == GREATER <==> s[i] == '>'
    {
      QuoteByte(s[i]);
      GreaterByte(s[i]);
    }
  }

  /** Parts with `c` between them. */
  function Join(parts: seq<Bytes>, c: bv8): Bytes
    requires parts != []
  {
    if |parts| == 1 then parts[0] else parts[0] + [c] + Join(parts[1..], c)
  }

  lemma JoinOne(part: Bytes, c: bv8)
    ensures Join([part], c) == part
  {
  }

  lemma JoinStep(front: Bytes, parts: seq<Bytes>, c: bv8)
    requires parts != []
    ensures Join([front] + parts, c) == front + [c] + Join(parts, c)
  {
    assert ([front] + parts)[1..] == parts;
  }

  /** Two parts and what follows them. */
  lemma JoinTwo(text: Bytes, front: Bytes, second: Bytes, parts: seq<Bytes>, c: bv8)
    requires text == front + [c] + (second + [c]) && parts != []
    ensures text + Join(parts, c) == Join([front] + ([second] + parts), c)
  {
    JoinStep(front, [second] + parts, c);
    JoinStep(second, parts, c);
    assert text + Join(parts, c) == front + [c] + (second + [c] + Join(parts, c));
  }

  /** The fields of joined parts; the last part may have more than one. */
  lemma {:induction false} FieldOfJoin(parts: seq<Bytes>, c: bv8, n: nat)
    requires parts != [] && forall i | 0 <= i < |parts| - 1 :: c !in parts[i]
    ensures n < |parts| - 1 ==> Field(Join(parts, c), c, n) == parts[n]
    ensures n >= |parts| - 1 ==> Field(Join(parts, c), c, n) == Field(parts[|parts| - 1], c, n - (|parts| - 1))
    decreases n
  {
    hide Field;
    if |parts| > 1 {
      FieldStep(parts[0], c, Join(parts[1..], c), if n == 0 then 0 else n - 1);
      if n > 0 {
        FieldOfJoin(parts[1..], c, n - 1);
      }
    }
  }

  // ---------- The client's stanzas ----------

  lemma Marks()
    ensures ByteOf('\'') == QUOTE && ByteOf(',') == COMMA && ByteOf('<') == LESS && ByteOf('>') == GREATER
  {
  }

  /** A literal, cut at its first quote. */
  lemma AsciiQuoted(s: string, front: string, back: string)
    requires s == front + "'" + back && '\'' !in front
    ensures Ascii(s) == Ascii(front) + [QUOTE] + Ascii(back) && QUOTE !in Ascii(front)
  {
    hide ByteOf;
    Marks();
    AsciiConcat(front + "'", back);
    AsciiConcat(front, "'");
    AsciiLacks(front);
  }

  /** The value of the `n`-th attribute, counted from 0. */
  function Attribute(stanza: Bytes, n: nat): Bytes {
    Field(stanza, QUOTE, 2 * n + 1)
  }

  /** The text between the first start tag and the next tag. */
  function Content(stanza: Bytes): Bytes {
    UpTo(Behind(stanza, GREATER), LESS)
  }

  datatype Credentials = NoCredentials | Credentials(username: Bytes, nonce: Bytes)

  /** The first SCRAM message: a header without channel binding and identity, the user and a nonce. */
  function ReadCredentials(message: Bytes): Credentials {
    var name, last := Field(message, COMMA, 2), Behind(Behind(Behind(message, COMMA), COMMA), COMMA);
    if && Field(message, COMMA, 0) == Ascii("n")
       && Field(message, COMMA, 1) == []
       && Ascii("n=") <= name
       && Ascii("r=") <= last
    then Credentials(name[2..], last[2..])
    else NoCredentials
  }
}
