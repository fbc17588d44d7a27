/** Text the script puts on the wire or on screen: the space-joined tag list of a write
    request and the `i / n` progress counter of the bulk-apply box. */
module Wire {
  import opened Records

  const Separator: char := ' '

  /** `tags.join(" ")`: the empty list gives "", a single tag gives itself. */
  function Join(tags: seq<string>): (s: string)
    ensures tags != [] ==> tags[0] <= s
  {
    if tags == [] then ""
    else if |tags| == 1 then tags[0]
    else tags[0] + [Separator] + Join(tags[1..])
  }

  /** The fields of `s` between separators, as `s.split(" ")` gives them. */
  function Fields(s: string): (r: seq<string>)
    ensures |r| >= 1
    decreases |s|
  {
    if s == [] then [""]
    else
      var rest := Fields(s[1..]);
      if s[0] == Separator then [""] + rest
      else [[s[0]] + rest[0]] + rest[1..]
  }

  /** How the receiving side reads the `tags` field back: "" is the empty list. */
  function Split(s: string): seq<string>
  {
    if s == "" then [] else Fields(s)
  }

  /** Tags the space-joined encoding can carry unambiguously: non-empty, no separator. */
  predicate WireSafe(tags: seq<string>)
  {
    forall t :: t in tags ==> t != "" && Separator !in t
  }

  lemma {:induction false} FieldsOfWord(t: string)
    requires Separator !in t
    ensures Fields(t) == [t]
    decreases |t|
  {
    if t != [] {
      FieldsOfWord(t[1..]);
      assert [t[0]] + t[1..] == t;
    }
  }

  lemma {:induction false} FieldsOfJoined(t: string, s: string)
    requires Separator !in t
    ensures Fields(t + [Separator] + s) == [t] + Fields(s)
    decreases |t|
  {
    if t == [] {
      assert t + [Separator] + s == [Separator] + s;
      assert ([Separator] + s)[1..] == s;
    } else {
      FieldsOfJoined(t[1..], s);
      assert (t + [Separator] + s)[1..] == t[1..] + [Separator] + s;
      assert [t[0]] + t[1..] == t;
    }
  }

  /** Decoding the joined string gives back the list, for every list of wire-safe tags. */
  lemma {:induction false} SplitJoin(tags: seq<string>)
    requires WireSafe(tags)
    ensures Split(Join(tags)) == tags
  {
    if tags == [] {
    } else if |tags| == 1 {
      FieldsOfWord(tags[0]);
    } else {
      var rest := tags[1..];
      assert tags[0] in tags && rest[0] in tags;
      assert WireSafe(rest) by {
        forall t | t in rest ensures t != "" && Separator !in t {
          assert t in tags;
        }
      }
      SplitJoin(rest);
      FieldsOfJoined(tags[0], Join(rest));
      assert [tags[0]] + rest == tags;
    }
  }

  /** Two lists that differ only in where the spaces fall inside a tag are sent alike:
      the reason tags must be wire-safe. */
  lemma JoinAmbiguous()
    ensures Join(["a b"]) == Join(["a", "b"])
    ensures !WireSafe(["a b"])
  {
    assert Separator in "a b" by { assert "a b"[1] == Separator; }
  }

  /** The body `setTags` posts: identifiers as they are, tags joined with one space. */
  function RequestBody(book: Book): TagRequest
  {
    TagRequest(book.id, book.serviceId, Join(book.tags))
  }

  /** The posted body carries the book's identifiers, and its tags field decodes to the
      book's whole tag list whenever the tags are wire-safe. */
  lemma RequestRoundTrip(book: Book)
    requires WireSafe(book.tags)
    ensures RequestBody(book).id == book.id && RequestBody(book).serviceId == book.serviceId
    ensures Split(RequestBody(book).tags) == book.tags
  {
    SplitJoin(book.tags);
  }

  predicate IsDigit(c: char)
  {
    '0' <= c <= '9'
  }

  function DigitValue(c: char): (d: nat)
    requires IsDigit(c)
    ensures d < 10
  {
    (c as int - '0' as int) as nat
  }

  function Digit(d: nat): (c: char)
    requires d < 10
    ensures IsDigit(c) && DigitValue(c) == d
  {
    ('0' as int + d) as char
  }

  /** The decimal numeral of `n`, as JavaScript's template string prints it. */
  function Decimal(n: nat): (s: string)
    ensures |s| >= 1
    ensures forall k :: 0 <= k < |s| ==> IsDigit(s[k])
    decreases n
  {
    if n < 10 then [Digit(n)] else Decimal(n / 10) + [Digit(n % 10)]
  }

  /** The number a string of digits denotes. */
  function Value(s: string): nat
    requires forall k :: 0 <= k < |s| ==> IsDigit(s[k])
  {
    if s == [] then 0 else Value(s[..|s| - 1]) * 10 + DigitValue(s[|s| - 1])
  }

  /** Reading a numeral back gives the number it was printed from. */
  lemma {:induction false} ValueDecimal(n: nat)
    ensures Value(Decimal(n)) == n
    decreases n
  {
    if n >= 10 {
      ValueDecimal(n / 10);
      var s := Decimal(n);
      assert s[..|s| - 1] == Decimal(n / 10);
    }
  }

  /** The progress counter `${i} / ${n}`. */
  function ProgressText(i: nat, n: nat): string
  {
    Decimal(i) + " / " + Decimal(n)
  }

  /** Distinct counters read differently, and none reads as the cleared text "". */
  lemma ProgressTextInjective(i: nat, n: nat, i': nat, n': nat)
    ensures ProgressText(i, n) != ""
    ensures ProgressText(i, n) == ProgressText(i', n') ==> i == i' && n == n'
  {
    var a, b := Decimal(i), Decimal(n);
    var c, d := Decimal(i'), Decimal(n');
    var s, s' := ProgressText(i, n), ProgressText(i', n');
    if s == s' {
      assert s[|a|] == ' ' && s'[|c|] == ' ';
      assert |a| == |c| by {
        if |a| != |c| {
          assert false;
        }
      }
      assert a == s[..|a|] && c == s'[..|c|];
      assert b == s[|a| + 3..] && d == s'[|c| + 3..];
      ValueDecimal(i); ValueDecimal(i');
      ValueDecimal(n); ValueDecimal(n');
    }
  }
}
