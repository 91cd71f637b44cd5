/**
 * JSON values as Python's `json` module reads and writes them, and the text
 * `json.dumps(value, sort_keys=True)` produces for them: the default
 * separators ", " and ": ", keys in code-point order, and `ensure_ascii`
 * escaping (every character outside space..tilde, and the quote and the
 * backslash, escaped; characters beyond the basic plane as surrogate pairs).
 *
 * A Python dict is an insertion-ordered list of entries; `Canon` puts every
 * dict's entries in key order.  The decoder `DecodeValue` reads back what
 * `Dumps` writes, which proves that two values serialise alike exactly when
 * their canonical forms agree.
 */
module Json {
  import opened Common

  datatype Value =
    | Null
    | Bool(b: bool)
    | Int(i: int)
    | Str(s: string)
    | Array(items: seq<Value>)
    | Object(members: seq<(string, Value)>)

  type Entries = seq<(string, Value)>

  // ----- key order -----

  /** Python's ordering of `str`: code point by code point, a proper prefix first. */
  predicate KeyLe(a: string, b: string)
    decreases |a|
  {
    |a| == 0 || (|b| > 0 && (a[0] < b[0] || (a[0] == b[0] && KeyLe(a[1..], b[1..]))))
  }

  lemma {:induction false} KeyLeTotal(a: string, b: string)
    ensures KeyLe(a, b) || KeyLe(b, a)
    decreases |a|
  {
    if |a| > 0 && |b| > 0 && a[0] == b[0] {
      KeyLeTotal(a[1..], b[1..]);
    }
  }

  lemma {:induction false} KeyLeAntisymmetric(a: string, b: string)
    ensures KeyLe(a, b) && KeyLe(b, a) ==> a == b
    decreases |a|
  {
    if |a| > 0 && |b| > 0 && a[0] == b[0] {
      KeyLeAntisymmetric(a[1..], b[1..]);
      if a[1..] == b[1..] {
        assert a == [a[0]] + a[1..] && b == [b[0]] + b[1..];
      }
    }
  }

  lemma {:induction false} KeyLeTransitive(a: string, b: string, c: string)
    ensures KeyLe(a, b) && KeyLe(b, c) ==> KeyLe(a, c)
    decreases |a|
  {
    if |a| > 0 && |b| > 0 && |c| > 0 {
      KeyLeTransitive(a[1..], b[1..], c[1..]);
    }
  }

  /** Adjacent entries in key order. */
  predicate Sorted<T>(s: seq<(string, T)>) {
    forall i :: 0 < i < |s| ==> KeyLe(s[i - 1].0, s[i].0)
  }

  /** The keys of an entry list. */
  function KeySet<T>(s: seq<(string, T)>): set<string>
    decreases |s|
  {
    if |s| == 0 then {} else {s[0].0} + KeySet(s[1..])
  }

  /** No key occurs twice, as in a Python dict. */
  predicate DistinctKeys<T>(s: seq<(string, T)>)
    decreases |s|
  {
    |s| == 0 || (s[0].0 !in KeySet(s[1..]) && DistinctKeys(s[1..]))
  }

  lemma {:induction false} InKeySet<T>(s: seq<(string, T)>, j: nat)
    requires j < |s|
    ensures s[j].0 in KeySet(s)
    decreases j
  {
    if j > 0 {
      InKeySet(s[1..], j - 1);
    }
  }

  /** One step of the stable insertion sort by key. */
  function Insert<T>(x: (string, T), s: seq<(string, T)>): (r: seq<(string, T)>)
    ensures |r| == |s| + 1
    ensures multiset(r) == multiset(s) + multiset{x}
    decreases |s|
  {
    if |s| == 0 || KeyLe(x.0, s[0].0) then [x] + s
    else
      assert s == [s[0]] + s[1..];
      [s[0]] + Insert(x, s[1..])
  }

  /** `sorted(d.items())` for a dict: the entries ordered by key. */
  function SortByKey<T>(s: seq<(string, T)>): (r: seq<(string, T)>)
    ensures |r| == |s| && multiset(r) == multiset(s)
    decreases |s|
  {
    if |s| == 0 then []
    else
      assert s == [s[0]] + s[1..];
      Insert(s[0], SortByKey(s[1..]))
  }

  lemma {:induction false} InsertKeys<T>(x: (string, T), s: seq<(string, T)>)
    ensures KeySet(Insert(x, s)) == KeySet(s) + {x.0}
    decreases |s|
  {
    if |s| == 0 || KeyLe(x.0, s[0].0) {
      assert ([x] + s)[1..] == s;
    } else {
      InsertKeys(x, s[1..]);
      assert ([s[0]] + Insert(x, s[1..]))[1..] == Insert(x, s[1..]);
    }
  }

  lemma {:induction false} SortKeys<T>(s: seq<(string, T)>)
    ensures KeySet(SortByKey(s)) == KeySet(s)
    decreases |s|
  {
    if |s| > 0 {
      SortKeys(s[1..]);
      InsertKeys(s[0], SortByKey(s[1..]));
    }
  }

  lemma {:induction false} InsertSorted<T>(x: (string, T), s: seq<(string, T)>)
    requires Sorted(s)
    ensures Sorted(Insert(x, s))
    decreases |s|
  {
    if |s| > 0 && !KeyLe(x.0, s[0].0) {
      KeyLeTotal(x.0, s[0].0);
      InsertSorted(x, s[1..]);
    }
  }

  /** The sort puts the entries in key order. */
  lemma {:induction false} SortSorted<T>(s: seq<(string, T)>)
    ensures Sorted(SortByKey(s))
    decreases |s|
  {
    if |s| > 0 {
      SortSorted(s[1..]);
      InsertSorted(s[0], SortByKey(s[1..]));
    }
  }

  /** An entry list already in key order is left as it is. */
  lemma {:induction false} SortOfSorted<T>(s: seq<(string, T)>)
    requires Sorted(s)
    ensures SortByKey(s) == s
    decreases |s|
  {
    if |s| > 0 {
      assert Sorted(s[1..]);
      SortOfSorted(s[1..]);
    }
  }

  lemma {:induction false} InsertDistinct<T>(x: (string, T), s: seq<(string, T)>)
    requires DistinctKeys(s) && x.0 !in KeySet(s)
    ensures DistinctKeys(Insert(x, s))
    decreases |s|
  {
    if |s| == 0 || KeyLe(x.0, s[0].0) {
      assert ([x] + s)[1..] == s;
    } else {
      InsertDistinct(x, s[1..]);
      InsertKeys(x, s[1..]);
      assert ([s[0]] + Insert(x, s[1..]))[1..] == Insert(x, s[1..]);
    }
  }

  lemma {:induction false} SortDistinct<T>(s: seq<(string, T)>)
    requires DistinctKeys(s)
    ensures DistinctKeys(SortByKey(s))
    decreases |s|
  {
    if |s| > 0 {
      SortDistinct(s[1..]);
      SortKeys(s[1..]);
      InsertDistinct(s[0], SortByKey(s[1..]));
    }
  }

  /** In a sorted list the first key is the least. */
  lemma {:induction false} SortedHeadLeast<T>(s: seq<(string, T)>, j: nat)
    requires Sorted(s) && j < |s|
    ensures KeyLe(s[0].0, s[j].0)
    decreases j
  {
    if j == 0 {
      KeyLeTotal(s[0].0, s[0].0);
    } else {
      SortedHeadLeast(s, j - 1);
      KeyLeTransitive(s[0].0, s[j - 1].0, s[j].0);
    }
  }

  /** Two key-ordered lists with distinct keys and the same entries are equal. */
  lemma {:induction false} SortedUnique<T>(s: seq<(string, T)>, t: seq<(string, T)>)
    requires Sorted(s) && Sorted(t) && DistinctKeys(t)
    requires multiset(s) == multiset(t)
    ensures s == t
    decreases |s|
  {
    if |s| == 0 {
      assert |multiset(t)| == 0;
    } else {
      assert |t| > 0 by {
        assert |multiset(t)| == |multiset(s)| > 0;
      }
      assert s[0] in multiset(t) && t[0] in multiset(s);
      var i :| 0 <= i < |s| && s[i] == t[0];
      var j :| 0 <= j < |t| && t[j] == s[0];
      SortedHeadLeast(s, i);
      SortedHeadLeast(t, j);
      KeyLeAntisymmetric(s[0].0, t[0].0);
      if j > 0 {
        InKeySet(t[1..], j - 1);
      }
      SortedTail(s, t);
    }
  }

  /** Removing equal heads keeps what `SortedUnique` needs, and recurses. */
  lemma {:induction false} SortedTail<T>(s: seq<(string, T)>, t: seq<(string, T)>)
    requires |s| > 0 && |t| > 0 && s[0] == t[0]
    requires Sorted(s) && Sorted(t) && DistinctKeys(t)
    requires multiset(s) == multiset(t)
    ensures s == t
    decreases |s|, 0
  {
    TailsAlike(s, t);
    SortedDrop(s);
    SortedDrop(t);
    SortedUnique(s[1..], t[1..]);
    HeadTail(s, t);
  }

  lemma TailsAlike<T>(s: seq<T>, t: seq<T>)
    requires |s| > 0 && |t| > 0 && s[0] == t[0] && multiset(s) == multiset(t)
    ensures multiset(s[1..]) == multiset(t[1..])
  {
    assert s == [s[0]] + s[1..] && t == [t[0]] + t[1..];
    assert multiset(s[1..]) == multiset(s) - multiset{s[0]};
    assert multiset(t[1..]) == multiset(t) - multiset{t[0]};
  }

  lemma HeadTail<T>(s: seq<T>, t: seq<T>)
    requires |s| > 0 && |t| > 0 && s[0] == t[0] && s[1..] == t[1..]
    ensures s == t
  {
    assert s == [s[0]] + s[1..] && t == [t[0]] + t[1..];
  }

  lemma SortedDrop<T>(s: seq<(string, T)>)
    requires |s| > 0 && Sorted(s)
    ensures Sorted(s[1..])
  {
    forall i | 0 < i < |s| - 1
      ensures KeyLe(s[1..][i - 1].0, s[1..][i].0)
    {
      assert s[1..][i - 1] == s[i] && s[1..][i] == s[i + 1];
    }
  }

  /** The result of sorting depends only on the entries, not on their order. */
  lemma SortPermutation<T>(s: seq<(string, T)>, t: seq<(string, T)>)
    requires DistinctKeys(t) && multiset(s) == multiset(t)
    ensures SortByKey(s) == SortByKey(t)
  {
    SortSorted(s);
    SortSorted(t);
    SortDistinct(t);
    SortedUnique(SortByKey(s), SortByKey(t));
  }

  /** `", ".join(parts)`. */
  function Join(parts: seq<string>): string
    decreases |parts|
  {
    if |parts| == 0 then ""
    else if |parts| == 1 then parts[0]
    else parts[0] + ", " + Join(parts[1..])
  }

  // ----- characters -----

  /** A lower-case hexadecimal digit, as `format(n, "x")` writes it. */
  function HexDigit(d: nat): (c: char)
    requires d < 16
  {
    if d < 10 then ('0' as int + d) as char else ('a' as int + d - 10) as char
  }

  function HexValue(c: char): (r: Option<nat>)
    ensures r.Some? ==> r.value < 16
  {
    if '0' <= c <= '9' then Some(c as int - '0' as int)
    else if 'a' <= c <= 'f' then Some(c as int - 'a' as int + 10)
    else None
  }

  lemma HexDigitValue(d: nat)
    requires d < 16
    ensures HexValue(HexDigit(d)) == Some(d)
  {
  }

  /** `'{0:04x}'.format(n)`. */
  function Hex4(n: nat): (r: string)
    requires n < 0x10000
    ensures |r| == 4
  {
    var hi, lo := n / 256, n % 256;
    [HexDigit(hi / 16), HexDigit(hi % 16), HexDigit(lo / 16), HexDigit(lo % 16)]
  }

  /** The number four hexadecimal digits spell. */
  function Hex4Value(t: string): (r: Option<nat>)
    requires |t| >= 4
    ensures r.Some? ==> r.value < 0x10000
  {
    match (HexValue(t[0]), HexValue(t[1]), HexValue(t[2]), HexValue(t[3]))
    case (Some(a), Some(b), Some(c), Some(d)) => Some(((a * 16 + b) * 16 + c) * 16 + d)
    case _ => None
  }

  lemma Hex4RoundTrip(n: nat, more: string)
    requires n < 0x10000
    ensures Hex4Value(Hex4(n) + more) == Some(n)
  {
    var hi, lo := n / 256, n % 256;
    HexDigitValue(hi / 16);
    HexDigitValue(hi % 16);
    HexDigitValue(lo / 16);
    HexDigitValue(lo % 16);
    var t := Hex4(n) + more;
    assert t[0] == HexDigit(hi / 16) && t[1] == HexDigit(hi % 16);
    assert t[2] == HexDigit(lo / 16) && t[3] == HexDigit(lo % 16);
    assert (hi / 16) * 16 + hi % 16 == hi;
    assert (lo / 16) * 16 + lo % 16 == lo;
    assert hi * 256 + lo == n;
  }

  /** A surrogate code (the halves of a pair), which no `char` is. */
  predicate Surrogate(n: int) {
    0xD800 <= n < 0xE000
  }

  /** How `json.dumps` writes one character of a string, with `ensure_ascii`. */
  function EscapeChar(c: char): (r: string)
    ensures 0 < |r| && r[0] != '"'
  {
    if c == '"' then ['\\', '"']
    else if c == '\\' then ['\\', '\\']
    else if c == '\n' then ['\\', 'n']
    else if c == '\r' then ['\\', 'r']
    else if c == '\t' then ['\\', 't']
    else if c == '\U{0008}' then ['\\', 'b']
    else if c == '\U{000C}' then ['\\', 'f']
    else if ' ' <= c <= '~' then [c]
    else if c as int < 0x10000 then ['\\', 'u'] + Hex4(c as int)
    else
      var v := c as int - 0x10000;
      ['\\', 'u'] + Hex4(0xD800 + v / 1024) + ['\\', 'u'] + Hex4(0xDC00 + v % 1024)
  }

  function Escape(s: string): (r: string)
    decreases |s|
  {
    if |s| == 0 then [] else EscapeChar(s[0]) + Escape(s[1..])
  }

  /** A string literal. */
  function Quote(s: string): string {
    ['"'] + Escape(s) + ['"']
  }

  function UnescapeShort(e: char): Option<char> {
    if e == '"' then Some('"')
    else if e == '\\' then Some('\\')
    else if e == 'n' then Some('\n')
    else if e == 'r' then Some('\r')
    else if e == 't' then Some('\t')
    else if e == 'b' then Some('\U{0008}')
    else if e == 'f' then Some('\U{000C}')
    else None
  }

  /** The character a `\u` escape (and, for a pair, the one after it) stands for. */
  function DecodeUnicode(t: string): (r: Option<(char, string)>)
    ensures r.Some? ==> |r.value.1| + 4 <= |t|
  {
    if |t| < 4 then None
    else match Hex4Value(t)
      case None => None
      case Some(n) =>
        if !Surrogate(n) then Some((n as char, t[4..]))
        else if 0xDC00 <= n || |t| < 10 || t[4] != '\\' || t[5] != 'u' then None
        else match Hex4Value(t[6..])
          case None => None
          case Some(m) =>
            if 0xDC00 <= m < 0xE000 then Some(((0x10000 + (n - 0xD800) * 1024 + (m - 0xDC00)) as char, t[10..]))
            else None
  }

  /** The first character of a string literal's body. */
  function DecodeChar(t: string): (r: Option<(char, string)>)
    requires |t| > 0
    ensures r.Some? ==> |r.value.1| < |t|
  {
    if t[0] != '\\' then Some((t[0], t[1..]))
    else if |t| < 2 then None
    else if t[1] == 'u' then DecodeUnicode(t[2..])
    else match UnescapeShort(t[1])
      case None => None
      case Some(c) => Some((c, t[2..]))
  }

  /** A string literal's body up to and including the closing quote. */
  function DecodeChars(t: string): (r: Option<(string, string)>)
    ensures r.Some? ==> |r.value.1| < |t|
    decreases |t|
  {
    if |t| == 0 then None
    else if t[0] == '"' then Some(([], t[1..]))
    else match DecodeChar(t)
      case None => None
      case Some((c, rest)) =>
        match DecodeChars(rest)
        case None => None
        case Some((s, rest')) => Some(([c] + s, rest'))
  }

  lemma EscapeShort(c: char, e: char, more: string)
    requires UnescapeShort(e) == Some(c) && e != 'u'
    ensures DecodeChar(['\\', e] + more) == Some((c, more))
  {
    assert (['\\', e] + more)[2..] == more;
  }

  lemma EscapePlain(c: char, more: string)
    requires c != '\\'
    ensures DecodeChar([c] + more) == Some((c, more))
  {
    assert ([c] + more)[1..] == more;
  }

  lemma EscapeBasic(c: char, more: string)
    requires c as int < 0x10000
    ensures DecodeChar(['\\', 'u'] + Hex4(c as int) + more) == Some((c, more))
  {
    var t := ['\\', 'u'] + Hex4(c as int) + more;
    assert t[2..] == Hex4(c as int) + more;
    Hex4RoundTrip(c as int, more);
    assert (Hex4(c as int) + more)[4..] == more;
  }

  /** Two `\u` escapes forming a surrogate pair read back as one character. */
  lemma DecodePair(hi: nat, lo: nat, more: string)
    requires 0xD800 <= hi < 0xDC00 && 0xDC00 <= lo < 0xE000
    ensures DecodeUnicode(Hex4(hi) + (['\\', 'u'] + Hex4(lo) + more))
         == Some(((0x10000 + (hi - 0xD800) * 1024 + (lo - 0xDC00)) as char, more))
  {
    var tail := ['\\', 'u'] + Hex4(lo) + more;
    var u := Hex4(hi) + tail;
    Hex4RoundTrip(hi, tail);
    assert u[4] == '\\' && u[5] == 'u';
    assert u[6..] == Hex4(lo) + more;
    Hex4RoundTrip(lo, more);
    assert u[10..] == more;
  }

  /** The halves of the surrogate pair `json.dumps` writes for a character beyond the basic plane. */
  function High(c: char): nat
    requires c as int >= 0x10000
  {
    0xD800 + (c as int - 0x10000) / 1024
  }

  function Low(c: char): nat
    requires c as int >= 0x10000
  {
    0xDC00 + (c as int - 0x10000) % 1024
  }

  lemma PairHalves(c: char)
    requires c as int >= 0x10000
    ensures 0xD800 <= High(c) < 0xDC00 && 0xDC00 <= Low(c) < 0xE000
    ensures 0x10000 + (High(c) - 0xD800) * 1024 + (Low(c) - 0xDC00) == c as int
  {
  }

  lemma EscapeCharPair(c: char)
    requires c as int >= 0x10000
    ensures EscapeChar(c) == ['\\', 'u'] + Hex4(High(c)) + ['\\', 'u'] + Hex4(Low(c))
  {
  }

  lemma EscapePair(c: char, more: string)
    requires c as int >= 0x10000
    ensures DecodeChar(EscapeChar(c) + more) == Some((c, more))
  {
    var tail := ['\\', 'u'] + Hex4(Low(c)) + more;
    var u := Hex4(High(c)) + tail;
    EscapeCharPair(c);
    assert EscapeChar(c) + more == ['\\', 'u'] + u;
    assert (['\\', 'u'] + u)[2..] == u;
    PairHalves(c);
    DecodePair(High(c), Low(c), more);
  }

  /** Reading an escaped character back gives the character. */
  lemma EscapeRoundTrip(c: char, more: string)
    ensures DecodeChar(EscapeChar(c) + more) == Some((c, more))
  {
    if c == '"' {
      EscapeShort(c, '"', more);
    } else if c == '\\' {
      EscapeShort(c, '\\', more);
    } else if c == '\n' {
      EscapeShort(c, 'n', more);
    } else if c == '\r' {
      EscapeShort(c, 'r', more);
    } else if c == '\t' {
      EscapeShort(c, 't', more);
    } else if c == '\U{0008}' {
      EscapeShort(c, 'b', more);
    } else if c == '\U{000C}' {
      EscapeShort(c, 'f', more);
    } else if ' ' <= c <= '~' {
      EscapePlain(c, more);
    } else if c as int < 0x10000 {
      EscapeBasic(c, more);
    } else {
      EscapePair(c, more);
    }
  }

  /** Reading an escaped string and its closing quote back gives the string. */
  lemma {:induction false} DecodeEscaped(s: string, rest: string)
    ensures DecodeChars(Escape(s) + ['"'] + rest) == Some((s, rest))
    decreases |s|
  {
    var t := Escape(s) + ['"'] + rest;
    if |s| == 0 {
      assert t == ['"'] + rest && t[1..] == rest;
    } else {
      DecodeEscaped(s[1..], rest);
      EscapedStep(s, rest);
    }
  }

  /** The first escaped character of a string, given that the rest reads back. */
  lemma EscapedStep(s: string, rest: string)
    requires |s| > 0 && DecodeChars(Escape(s[1..]) + ['"'] + rest) == Some((s[1..], rest))
    ensures DecodeChars(Escape(s) + ['"'] + rest) == Some((s, rest))
  {
    var t := Escape(s) + ['"'] + rest;
    var more := Escape(s[1..]) + ['"'] + rest;
    assert t == EscapeChar(s[0]) + more;
    EscapeRoundTrip(s[0], more);
    CharsCons(t, s[0], more, s[1..], rest);
    assert [s[0]] + s[1..] == s;
  }

  /** A character that does not close the string, followed by the rest of the string. */
  lemma CharsCons(t: string, c: char, more: string, s: string, rest: string)
    requires |t| > 0 && t[0] != '"' && DecodeChar(t) == Some((c, more))
    requires DecodeChars(more) == Some((s, rest))
    ensures DecodeChars(t) == Some(([c] + s, rest))
  {
  }

  // ----- numbers -----

  /** `str(i)` for a Python int. */
  function IntText(i: int): (r: string)
    ensures |r| > 0
  {
    if i < 0 then ['-'] + NatToString(-i) else NatToString(i)
  }

  /** The length of the run of digits `t` starts with. */
  function DigitRun(t: string): (k: nat)
    ensures k <= |t|
    decreases |t|
  {
    if |t| > 0 && IsDigit(t[0]) then 1 + DigitRun(t[1..]) else 0
  }

  function DigitsValue(d: string): nat
    decreases |d|
  {
    if |d| == 0 then 0
    else 10 * DigitsValue(d[..|d| - 1]) + (if IsDigit(d[|d| - 1]) then d[|d| - 1] as int - '0' as int else 0)
  }

  function DecodeNat(t: string): (r: Option<(nat, string)>)
    ensures r.Some? ==> |r.value.1| < |t|
  {
    var k := DigitRun(t);
    if k == 0 then None else Some((DigitsValue(t[..k]), t[k..]))
  }

  function DecodeInt(t: string): (r: Option<(int, string)>)
    ensures r.Some? ==> |r.value.1| < |t|
  {
    if |t| > 0 && t[0] == '-' then
      match DecodeNat(t[1..])
      case None => None
      case Some((n, rest)) => Some((-(n as int), rest))
    else
      match DecodeNat(t)
      case None => None
      case Some((n, rest)) => Some((n as int, rest))
  }

  /** What may follow a number so that it ends there: nothing, or a non-digit. */
  predicate Delimited(rest: string) {
    |rest| == 0 || !IsDigit(rest[0])
  }

  lemma {:induction false} DigitRunOf(d: string, rest: string)
    requires forall i :: 0 <= i < |d| ==> IsDigit(d[i])
    requires Delimited(rest)
    ensures DigitRun(d + rest) == |d|
    decreases |d|
  {
    if |d| > 0 {
      assert (d + rest)[1..] == d[1..] + rest;
      DigitRunOf(d[1..], rest);
    } else {
      assert d + rest == rest;
    }
  }

  lemma {:induction false} DigitsValueOf(n: nat)
    ensures DigitsValue(NatToString(n)) == n
    decreases n
  {
    if n >= 10 {
      var d := NatToString(n);
      assert d == NatToString(n / 10) + [DigitChar(n % 10)];
      assert d[..|d| - 1] == NatToString(n / 10);
      DigitsValueOf(n / 10);
    }
  }

  lemma DecodeNatText(n: nat, rest: string)
    requires Delimited(rest)
    ensures DecodeNat(NatToString(n) + rest) == Some((n, rest))
  {
    var d := NatToString(n);
    DigitRunOf(d, rest);
    assert (d + rest)[..|d|] == d && (d + rest)[|d|..] == rest;
    DigitsValueOf(n);
  }

  lemma DecodeIntText(i: int, rest: string)
    requires Delimited(rest)
    ensures DecodeInt(IntText(i) + rest) == Some((i, rest))
  {
    if i < 0 {
      DecodeNegative(-i, rest);
    } else {
      var d := NatToString(i);
      DecodeNatText(i, rest);
      assert (d + rest)[0] == d[0] && IsDigit(d[0]);
    }
  }

  lemma DecodeNegative(n: nat, rest: string)
    requires n > 0 && Delimited(rest)
    ensures DecodeInt(['-'] + NatToString(n) + rest) == Some((-(n as int), rest))
  {
    var t := ['-'] + NatToString(n) + rest;
    assert t[0] == '-' && t[1..] == NatToString(n) + rest;
    DecodeNatText(n, rest);
  }

  // ----- values -----

  /** `json.dumps(v, sort_keys=True)`. */
  function Dumps(v: Value): (r: string)
    ensures |r| > 0
    decreases v, 1
  {
    match v
    case Null => "null"
    case Bool(b) => if b then "true" else "false"
    case Int(i) => IntText(i)
    case Str(s) => Quote(s)
    case Array(items) => "[" + Join(DumpsEach(v, items)) + "]"
    case Object(ms) =>
      SortedBelow(ms);
      "{" + Join(Pieces(v, SortByKey(ms))) + "}"
  }

  /** The texts of the items of `parent`, an array. */
  function DumpsEach(parent: Value, items: seq<Value>): (r: seq<string>)
    requires forall k | 0 <= k < |items| :: items[k] < parent
    ensures |r| == |items|
    decreases parent, 0, |items|
  {
    if |items| == 0 then [] else [Dumps(items[0])] + DumpsEach(parent, items[1..])
  }

  /** The `"key": value` parts of the (sorted) entries of `parent`, a dict. */
  function Pieces(parent: Value, l: Entries): (r: seq<string>)
    requires forall i | 0 <= i < |l| :: l[i].1 < parent
    ensures |r| == |l|
    decreases parent, 0, |l|
  {
    if |l| == 0 then [] else [Quote(l[0].0) + ": " + Dumps(l[0].1)] + Pieces(parent, l[1..])
  }

  /** The entries of a dict in key order, each below the dict itself. */
  lemma SortedBelow(ms: Entries)
    ensures forall i | 0 <= i < |SortByKey(ms)| :: SortByKey(ms)[i].1 < Object(ms)
  {
    var l := SortByKey(ms);
    forall i | 0 <= i < |l|
      ensures l[i].1 < Object(ms)
    {
      assert l[i] in multiset(ms);
    }
  }

  /** Every dict, at every depth, with its entries in key order. */
  function Canon(v: Value): Value
    decreases v, 1
  {
    match v
    case Array(items) => Array(CanonEach(v, items))
    case Object(ms) =>
      SortedBelow(ms);
      Object(CanonEntries(v, SortByKey(ms)))
    case _ => v
  }

  function CanonEach(parent: Value, items: seq<Value>): (r: seq<Value>)
    requires forall k | 0 <= k < |items| :: items[k] < parent
    ensures |r| == |items|
    decreases parent, 0, |items|
  {
    if |items| == 0 then [] else [Canon(items[0])] + CanonEach(parent, items[1..])
  }

  function CanonEntries(parent: Value, l: Entries): (r: Entries)
    requires forall i | 0 <= i < |l| :: l[i].1 < parent
    ensures |r| == |l|
    ensures forall i | 0 <= i < |l| :: r[i].0 == l[i].0
    decreases parent, 0, |l|
  {
    if |l| == 0 then [] else [(l[0].0, Canon(l[0].1))] + CanonEntries(parent, l[1..])
  }

  /** No text `Dumps` writes starts with a closing bracket. */
  predicate Opens(c: char) {
    c != ']' && c != '}'
  }

  lemma DumpsOpens(v: Value)
    ensures Opens(Dumps(v)[0])
  {
    match v
    case Int(i) =>
      if i >= 0 {
        assert IsDigit(NatToString(i)[0]);
      }
    case _ =>
  }

  lemma JoinHead(parts: seq<string>)
    requires |parts| > 0 && |parts[0]| > 0
    ensures |Join(parts)| > 0 && Join(parts)[0] == parts[0][0]
  {
  }

  // ----- reading back -----

  /** Reads one value back from the front of `t`, returning it and what follows. */
  function DecodeValue(t: string): (r: Option<(Value, string)>)
    ensures r.Some? ==> |r.value.1| < |t|
    decreases |t|, 2
  {
    if |t| == 0 then None
    else if t[0] == 'n' then DecodeWord(t, "null", Null)
    else if t[0] == 't' then DecodeWord(t, "true", Bool(true))
    else if t[0] == 'f' then DecodeWord(t, "false", Bool(false))
    else if t[0] == '"' then DecodeString(t)
    else if t[0] == '[' then DecodeArray(t)
    else if t[0] == '{' then DecodeObject(t)
    else DecodeNumber(t)
  }

  function DecodeWord(t: string, w: string, v: Value): (r: Option<(Value, string)>)
    requires |w| > 0
    ensures r.Some? ==> |r.value.1| < |t|
  {
    if StartsWith(t, w) then Some((v, t[|w|..])) else None
  }

  function DecodeString(t: string): (r: Option<(Value, string)>)
    requires |t| > 0
    ensures r.Some? ==> |r.value.1| < |t|
  {
    match DecodeChars(t[1..])
    case None => None
    case Some((s, rest)) => Some((Str(s), rest))
  }

  function DecodeNumber(t: string): (r: Option<(Value, string)>)
    ensures r.Some? ==> |r.value.1| < |t|
  {
    match DecodeInt(t)
    case None => None
    case Some((i, rest)) => Some((Int(i), rest))
  }

  function DecodeArray(t: string): (r: Option<(Value, string)>)
    requires |t| > 0
    ensures r.Some? ==> |r.value.1| < |t|
    decreases |t|, 1
  {
    if |t| > 1 && t[1] == ']' then Some((Array([]), t[2..]))
    else
      match DecodeItems(t[1..])
      case None => None
      case Some((items, rest)) => Some((Array(items), rest))
  }

  function DecodeObject(t: string): (r: Option<(Value, string)>)
    requires |t| > 0
    ensures r.Some? ==> |r.value.1| < |t|
    decreases |t|, 1
  {
    if |t| > 1 && t[1] == '}' then Some((Object([]), t[2..]))
    else
      match DecodeMembers(t[1..])
      case None => None
      case Some((ms, rest)) => Some((Object(ms), rest))
  }

  /** The items of a non-empty array and its closing bracket. */
  function DecodeItems(t: string): (r: Option<(seq<Value>, string)>)
    ensures r.Some? ==> |r.value.1| < |t|
    decreases |t|, 3
  {
    match DecodeValue(t)
    case None => None
    case Some((v, rest)) =>
      if StartsWith(rest, ", ") then
        match DecodeItems(rest[2..])
        case None => None
        case Some((vs, rest')) => Some(([v] + vs, rest'))
      else if StartsWith(rest, "]") then Some(([v], rest[1..]))
      else None
  }

  /** The entries of a non-empty object and its closing brace. */
  function DecodeMembers(t: string): (r: Option<(Entries, string)>)
    ensures r.Some? ==> |r.value.1| < |t|
    decreases |t|, 3
  {
    if |t| == 0 || t[0] != '"' then None
    else
      match DecodeChars(t[1..])
      case None => None
      case Some((key, r1)) =>
        if !StartsWith(r1, ": ") then None
        else
          match DecodeValue(r1[2..])
          case None => None
          case Some((v, r2)) =>
            if StartsWith(r2, ", ") then
              match DecodeMembers(r2[2..])
              case None => None
              case Some((more, r3)) => Some(([(key, v)] + more, r3))
            else if StartsWith(r2, "}") then Some(([(key, v)], r2[1..]))
            else None
  }

  // Single steps of the decoder, stated on any text.

  lemma ValueWord(w: string, v: Value, rest: string)
    requires (w == "null" && v == Null) || (w == "true" && v == Bool(true)) || (w == "false" && v == Bool(false))
    ensures DecodeValue(w + rest) == Some((v, rest))
  {
    assert (w + rest)[..|w|] == w && (w + rest)[|w|..] == rest;
  }

  lemma ValueString(t: string, s: string, rest: string)
    requires |t| > 0 && t[0] == '"' && DecodeChars(t[1..]) == Some((s, rest))
    ensures DecodeValue(t) == Some((Str(s), rest))
  {
  }

  lemma ValueNumber(t: string, i: int, rest: string)
    requires |t| > 0 && (t[0] == '-' || IsDigit(t[0])) && DecodeInt(t) == Some((i, rest))
    ensures DecodeValue(t) == Some((Int(i), rest))
  {
    var c := t[0];
    assert c as int == 45 || 48 <= c as int <= 57;
    assert c != 'n' && c != 't' && c != 'f' && c != '"' && c != '[' && c != '{';
    assert DecodeValue(t) == DecodeNumber(t);
  }

  lemma ValueArray(t: string, items: seq<Value>, rest: string)
    requires |t| > 1 && t[0] == '[' && t[1] != ']' && DecodeItems(t[1..]) == Some((items, rest))
    ensures DecodeValue(t) == Some((Array(items), rest))
  {
    assert DecodeArray(t) == Some((Array(items), rest));
    assert DecodeValue(t) == DecodeArray(t);
  }

  lemma ValueObject(t: string, ms: Entries, rest: string)
    requires |t| > 1 && t[0] == '{' && t[1] != '}' && DecodeMembers(t[1..]) == Some((ms, rest))
    ensures DecodeValue(t) == Some((Object(ms), rest))
  {
    assert DecodeObject(t) == Some((Object(ms), rest));
    assert DecodeValue(t) == DecodeObject(t);
  }

  lemma ValueEmpty(t: string, v: Value, rest: string)
    requires |t| > 1 && t[2..] == rest
    requires (t[0] == '[' && t[1] == ']' && v == Array([])) || (t[0] == '{' && t[1] == '}' && v == Object([]))
    ensures DecodeValue(t) == Some((v, rest))
  {
  }

  lemma ItemsMore(t: string, v: Value, r: string, vs: seq<Value>, r2: string)
    requires DecodeValue(t) == Some((v, r)) && |r| >= 2 && r[0] == ',' && r[1] == ' '
    requires DecodeItems(r[2..]) == Some((vs, r2))
    ensures DecodeItems(t) == Some(([v] + vs, r2))
  {
    assert r[..2] == ", ";
  }

  lemma ItemsLast(t: string, v: Value, r: string)
    requires DecodeValue(t) == Some((v, r)) && |r| > 0 && r[0] == ']'
    ensures DecodeItems(t) == Some(([v], r[1..]))
  {
    assert r[..1] == "]";
  }

  /** A `"key": value` entry at the front of `t`, leaving `r`. */
  predicate EntryAt(t: string, key: string, v: Value, r: string) {
    |t| > 0 && t[0] == '"' &&
    match DecodeChars(t[1..])
    case None => false
    case Some((k, r1)) => k == key && |r1| >= 2 && r1[0] == ':' && r1[1] == ' ' && DecodeValue(r1[2..]) == Some((v, r))
  }

  lemma MembersMore(t: string, key: string, v: Value, r: string, more: Entries, r2: string)
    requires EntryAt(t, key, v, r) && |r| >= 2 && r[0] == ',' && r[1] == ' '
    requires DecodeMembers(r[2..]) == Some((more, r2))
    ensures DecodeMembers(t) == Some(([(key, v)] + more, r2))
  {
    var r1 := DecodeChars(t[1..]).value.1;
    assert r1[..2] == ": " && r[..2] == ", ";
  }

  lemma MembersLast(t: string, key: string, v: Value, r: string)
    requires EntryAt(t, key, v, r) && |r| > 0 && r[0] == '}'
    ensures DecodeMembers(t) == Some(([(key, v)], r[1..]))
  {
    var r1 := DecodeChars(t[1..]).value.1;
    assert r1[..2] == ": " && r[..1] == "}";
  }

  // ----- the round trip -----

  lemma DecodeQuoted(s: string, rest: string)
    ensures DecodeValue(Quote(s) + rest) == Some((Str(s), rest))
  {
    var t := Quote(s) + rest;
    assert t[0] == '"' && t[1..] == Escape(s) + ['"'] + rest;
    DecodeEscaped(s, rest);
    ValueString(t, s, rest);
  }

  lemma DecodeIntValue(i: int, rest: string)
    requires Delimited(rest)
    ensures DecodeValue(IntText(i) + rest) == Some((Int(i), rest))
  {
    var t := IntText(i) + rest;
    assert t[0] == IntText(i)[0];
    if i >= 0 {
      assert IsDigit(NatToString(i)[0]);
    }
    DecodeIntText(i, rest);
    ValueNumber(t, i, rest);
  }

  /** `Join` of a first part and the rest. */
  lemma JoinCons(first: string, ps: seq<string>)
    ensures Join([first] + ps) == if |ps| == 0 then first else first + ", " + Join(ps)
  {
    assert ([first] + ps)[1..] == ps;
  }

  lemma EachCons(parent: Value, items: seq<Value>)
    requires |items| > 0 && forall k | 0 <= k < |items| :: items[k] < parent
    ensures DumpsEach(parent, items) == [Dumps(items[0])] + DumpsEach(parent, items[1..])
    ensures CanonEach(parent, items) == [Canon(items[0])] + CanonEach(parent, items[1..])
  {
  }

  lemma PiecesCons(parent: Value, l: Entries)
    requires |l| > 0 && forall i | 0 <= i < |l| :: l[i].1 < parent
    ensures Pieces(parent, l) == [Quote(l[0].0) + ": " + Dumps(l[0].1)] + Pieces(parent, l[1..])
    ensures CanonEntries(parent, l) == [(l[0].0, Canon(l[0].1))] + CanonEntries(parent, l[1..])
  {
  }

  /** The last element of an array: its text, then the closing bracket. */
  lemma ItemsLastAt(first: string, v: Value, rest: string)
    requires DecodeValue(first + ("]" + rest)) == Some((v, "]" + rest))
    ensures DecodeItems(first + "]" + rest) == Some(([v], rest))
  {
    assert first + "]" + rest == first + ("]" + rest);
    assert ("]" + rest)[1..] == rest;
    ItemsLast(first + ("]" + rest), v, "]" + rest);
  }

  /** `f + s + o + b + r`, regrouped around the separator `s`. */
  lemma Regroup<T>(f: seq<T>, s: seq<T>, o: seq<T>, b: seq<T>, r: seq<T>)
    ensures f + s + o + b + r == f + (s + (o + b + r))
  {
    AppendAssoc(f + s + o, b, r);
    AppendAssoc(f + s, o, b + r);
    AppendAssoc(f, s, o + (b + r));
    AppendAssoc(o, b, r);
  }

  lemma DropPrefix<T>(s: seq<T>, x: seq<T>)
    ensures (s + x)[|s|..] == x
  {
  }

  /** An element of an array followed by a separator and more elements. */
  lemma ItemsMoreAt(first: string, others: string, rest: string, v: Value, vs: seq<Value>)
    requires DecodeValue(first + (", " + (others + "]" + rest))) == Some((v, ", " + (others + "]" + rest)))
    requires DecodeItems(others + "]" + rest) == Some((vs, rest))
    ensures DecodeItems(first + ", " + others + "]" + rest) == Some(([v] + vs, rest))
  {
    var tail := ", " + (others + "]" + rest);
    Regroup(first, ", ", others, "]", rest);
    DropPrefix(", ", others + "]" + rest);
    ItemsMore(first + tail, v, tail, vs, rest);
  }

  /** The last member of an object, then the closing brace. */
  lemma MembersLastAt(first: string, key: string, v: Value, rest: string)
    requires EntryAt(first + ("}" + rest), key, v, "}" + rest)
    ensures DecodeMembers(first + "}" + rest) == Some(([(key, v)], rest))
  {
    assert first + "}" + rest == first + ("}" + rest);
    assert ("}" + rest)[1..] == rest;
    MembersLast(first + ("}" + rest), key, v, "}" + rest);
  }

  /** A member of an object followed by a separator and more members. */
  lemma MembersMoreAt(first: string, others: string, rest: string, key: string, v: Value, more: Entries)
    requires EntryAt(first + (", " + (others + "}" + rest)), key, v, ", " + (others + "}" + rest))
    requires DecodeMembers(others + "}" + rest) == Some((more, rest))
    ensures DecodeMembers(first + ", " + others + "}" + rest) == Some(([(key, v)] + more, rest))
  {
    var tail := ", " + (others + "}" + rest);
    Regroup(first, ", ", others, "}", rest);
    DropPrefix(", ", others + "}" + rest);
    MembersMore(first + tail, key, v, tail, more, rest);
  }

  /** A quoted key followed by anything: the quote, then the escaped key and its closing quote. */
  lemma QuoteThen(key: string, r: string)
    ensures |Quote(key) + r| > 0 && (Quote(key) + r)[0] == '"'
    ensures (Quote(key) + r)[1..] == Escape(key) + ['"'] + r
  {
  }

  /** Reading back what `Dumps` wrote gives the value in canonical form. */
  lemma {:induction false} DecodeDumps(v: Value, rest: string)
    requires Delimited(rest)
    ensures DecodeValue(Dumps(v) + rest) == Some((Canon(v), rest))
    decreases v, 1
  {
    match v
    case Null => ValueWord("null", Null, rest);
    case Bool(b) =>
      if b {
        ValueWord("true", v, rest);
      } else {
        ValueWord("false", v, rest);
      }
    case Int(i) => DecodeIntValue(i, rest);
    case Str(s) => DecodeQuoted(s, rest);
    case Array(_) => DecodeArrayDumps(v, rest);
    case Object(_) => DecodeObjectDumps(v, rest);
  }

  lemma {:induction false} DecodeArrayDumps(v: Value, rest: string)
    requires v.Array?
    ensures DecodeValue(Dumps(v) + rest) == Some((Canon(v), rest))
    decreases v, 0
  {
    var items := v.items;
    var parts := DumpsEach(v, items);
    var t := "[" + Join(parts) + "]" + rest;
    assert Dumps(v) + rest == t;
    if |items| == 0 {
      assert t[2..] == rest;
      ValueEmpty(t, Array([]), rest);
    } else {
      var body := Join(parts) + "]" + rest;
      assert t == "[" + body && t[1..] == body;
      DumpsOpens(items[0]);
      JoinHead(parts);
      ItemsRoundTrip(v, items, rest);
      ValueArray(t, CanonEach(v, items), rest);
    }
  }

  lemma {:induction false} ItemsRoundTrip(parent: Value, items: seq<Value>, rest: string)
    requires |items| > 0 && forall k | 0 <= k < |items| :: items[k] < parent
    ensures DecodeItems(Join(DumpsEach(parent, items)) + "]" + rest) == Some((CanonEach(parent, items), rest))
    decreases parent, 0, |items|
  {
    var first := Dumps(items[0]);
    var more := DumpsEach(parent, items[1..]);
    EachCons(parent, items);
    JoinCons(first, more);
    if |items| == 1 {
      assert more == [] && CanonEach(parent, items[1..]) == [];
      assert [Canon(items[0])] + CanonEach(parent, items[1..]) == [Canon(items[0])];
      DecodeDumps(items[0], "]" + rest);
      ItemsLastAt(first, Canon(items[0]), rest);
    } else {
      ItemsRoundTrip(parent, items[1..], rest);
      DecodeDumps(items[0], ", " + (Join(more) + "]" + rest));
      ItemsMoreAt(first, Join(more), rest, Canon(items[0]), CanonEach(parent, items[1..]));
    }
  }

  lemma {:induction false} DecodeObjectDumps(v: Value, rest: string)
    requires v.Object?
    ensures DecodeValue(Dumps(v) + rest) == Some((Canon(v), rest))
    decreases v, 0
  {
    var l := SortByKey(v.members);
    SortedBelow(v.members);
    var parts := Pieces(v, l);
    var t := "{" + Join(parts) + "}" + rest;
    assert Dumps(v) + rest == t;
    assert Canon(v) == Object(CanonEntries(v, l));
    if |l| == 0 {
      assert t[2..] == rest;
      ValueEmpty(t, Object([]), rest);
    } else {
      assert parts[0] == Quote(l[0].0) + ": " + Dumps(l[0].1);
      MembersRoundTrip(v, l, rest);
      ObjectText(parts, CanonEntries(v, l), rest);
    }
  }

  /** Braces around members that read back make an object that reads back. */
  lemma ObjectText(parts: seq<string>, ms: Entries, rest: string)
    requires |parts| > 0 && |parts[0]| > 0 && parts[0][0] == '"'
    requires DecodeMembers(Join(parts) + "}" + rest) == Some((ms, rest))
    ensures DecodeValue("{" + Join(parts) + "}" + rest) == Some((Object(ms), rest))
  {
    var body := Join(parts) + "}" + rest;
    var t := "{" + body;
    assert "{" + Join(parts) + "}" + rest == t && t[1..] == body;
    JoinHead(parts);
    ValueObject(t, ms, rest);
  }

  lemma {:induction false} MembersRoundTrip(parent: Value, l: Entries, rest: string)
    requires |l| > 0 && forall i | 0 <= i < |l| :: l[i].1 < parent
    ensures DecodeMembers(Join(Pieces(parent, l)) + "}" + rest) == Some((CanonEntries(parent, l), rest))
    decreases parent, 0, |l|
  {
    var key, w := l[0].0, l[0].1;
    var first := Quote(key) + ": " + Dumps(w);
    var more := Pieces(parent, l[1..]);
    PiecesCons(parent, l);
    JoinCons(first, more);
    if |l| == 1 {
      assert more == [] && CanonEntries(parent, l[1..]) == [];
      assert [(key, Canon(w))] + CanonEntries(parent, l[1..]) == [(key, Canon(w))];
      EntryRoundTrip(parent, key, w, "}" + rest);
      MembersLastAt(first, key, Canon(w), rest);
    } else {
      MembersRoundTrip(parent, l[1..], rest);
      EntryRoundTrip(parent, key, w, ", " + (Join(more) + "}" + rest));
      MembersMoreAt(first, Join(more), rest, key, Canon(w), CanonEntries(parent, l[1..]));
    }
  }

  /** One `"key": value` part reads back as the key and the canonical value. */
  lemma {:induction false} EntryRoundTrip(parent: Value, key: string, w: Value, tail: string)
    requires w < parent && Delimited(tail)
    ensures EntryAt(Quote(key) + ": " + Dumps(w) + tail, key, Canon(w), tail)
    decreases parent, 0, 0
  {
    DecodeDumps(w, tail);
    EntryAtParts(key, Dumps(w), tail, Canon(w));
  }

  /** A quoted key, ": " and text that reads back as a value before `tail` make an entry. */
  lemma EntryAtParts(key: string, x: string, tail: string, v: Value)
    requires DecodeValue(x + tail) == Some((v, tail))
    ensures EntryAt(Quote(key) + ": " + x + tail, key, v, tail)
  {
    var r1 := ": " + (x + tail);
    assert Quote(key) + ": " + x + tail == Quote(key) + r1;
    assert r1[0] == ':' && r1[1] == ' ' && r1[2..] == x + tail;
    QuoteThen(key, r1);
    DecodeEscaped(key, r1);
  }

  // ----- canonical forms -----

  /** The parent that bounds the recursion does not change what `CanonEntries` gives. */
  lemma {:induction false} CanonEntriesAnyParent(p: Value, q: Value, l: Entries)
    requires forall i | 0 <= i < |l| :: l[i].1 < p
    requires forall i | 0 <= i < |l| :: l[i].1 < q
    ensures CanonEntries(p, l) == CanonEntries(q, l)
    decreases |l|
  {
    if |l| > 0 {
      CanonEntriesAnyParent(p, q, l[1..]);
    }
  }

  /** Entry lists with the same keys in the same places are both in key order or neither. */
  lemma SameKeysSorted<A, B>(s: seq<(string, A)>, t: seq<(string, B)>)
    requires |s| == |t| && forall i | 0 <= i < |s| :: s[i].0 == t[i].0
    requires Sorted(s)
    ensures Sorted(t)
  {
    forall i | 0 < i < |t|
      ensures KeyLe(t[i - 1].0, t[i].0)
    {
      assert s[i - 1].0 == t[i - 1].0 && s[i].0 == t[i].0;
    }
  }

  /** A value and its canonical form serialise alike. */
  lemma {:induction false} DumpsCanon(v: Value)
    ensures Dumps(Canon(v)) == Dumps(v)
    decreases v, 1
  {
    match v
    case Array(items) =>
      var cs := CanonEach(v, items);
      var c := Array(cs);
      assert forall k | 0 <= k < |cs| :: cs[k] < c;
      EachCanon(v, items, c);
    case Object(ms) =>
      var l := SortByKey(ms);
      SortedBelow(ms);
      var cl := CanonEntries(v, l);
      var c := Object(cl);
      SortSorted(ms);
      SameKeysSorted(l, cl);
      SortOfSorted(cl);
      assert forall i | 0 <= i < |cl| :: cl[i].1 < c;
      PiecesCanon(v, l, c);
    case _ =>
  }

  lemma {:induction false} EachCanon(parent: Value, items: seq<Value>, c: Value)
    requires forall k | 0 <= k < |items| :: items[k] < parent
    requires forall k | 0 <= k < |items| :: CanonEach(parent, items)[k] < c
    ensures DumpsEach(c, CanonEach(parent, items)) == DumpsEach(parent, items)
    decreases parent, 0, |items|
  {
    if |items| > 0 {
      var cs := CanonEach(parent, items);
      assert cs[1..] == CanonEach(parent, items[1..]);
      DumpsCanon(items[0]);
      EachCanon(parent, items[1..], c);
    }
  }

  lemma {:induction false} PiecesCanon(parent: Value, l: Entries, c: Value)
    requires forall i | 0 <= i < |l| :: l[i].1 < parent
    requires forall i | 0 <= i < |l| :: CanonEntries(parent, l)[i].1 < c
    ensures Pieces(c, CanonEntries(parent, l)) == Pieces(parent, l)
    decreases parent, 0, |l|
  {
    if |l| > 0 {
      var cl := CanonEntries(parent, l);
      assert cl[1..] == CanonEntries(parent, l[1..]);
      DumpsCanon(l[0].1);
      PiecesCanon(parent, l[1..], c);
    }
  }

  /**
   * Two values serialise to the same text exactly when their canonical
   * forms agree: the text determines every key, every value and every
   * array order, and nothing but the order of dict entries is forgotten.
   */
  lemma DumpsInjective(a: Value, b: Value)
    ensures Dumps(a) == Dumps(b) <==> Canon(a) == Canon(b)
  {
    DecodeDumps(a, "");
    DecodeDumps(b, "");
    assert Dumps(a) + "" == Dumps(a) && Dumps(b) + "" == Dumps(b);
    DumpsCanon(a);
    DumpsCanon(b);
  }

  /** Putting a value in canonical form twice changes nothing more. */
  lemma CanonIdempotent(v: Value)
    ensures Canon(Canon(v)) == Canon(v)
  {
    DumpsCanon(v);
    DumpsInjective(Canon(v), v);
  }

  /**
   * The order in which a dict's entries were inserted changes neither its
   * canonical form nor its text, as long as its keys are distinct.
   */
  lemma KeyOrderIrrelevant(ms: Entries, ns: Entries)
    requires DistinctKeys(ns) && multiset(ms) == multiset(ns)
    ensures Canon(Object(ms)) == Canon(Object(ns))
    ensures Dumps(Object(ms)) == Dumps(Object(ns))
  {
    SortPermutation(ms, ns);
    SortedBelow(ms);
    SortedBelow(ns);
    CanonEntriesAnyParent(Object(ms), Object(ns), SortByKey(ns));
    DumpsInjective(Object(ms), Object(ns));
  }
}
