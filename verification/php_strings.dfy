/**
  The PHP string built-ins the plugin relies on (strtr, rtrim, str_pad, explode,
  str_replace), over PHP strings, which are sequences of bytes.
*/
module PhpStrings {

  /** One byte of a PHP string. */
  type Byte = b: int | 0 <= b < 256

  /** A PHP string. */
  type Bytes = seq<Byte>

  const DOT: Byte := 46       // '.'
  const EQUALS: Byte := 61    // '='
  const SPACE: Byte := 32     // ' '
  const MINUS: Byte := 45     // '-'
  const ZERO_DIGIT: Byte := 48  // '0'

  /** The bytes of an ASCII literal. */
  function Ascii(s: string): (r: Bytes)
    requires forall i :: 0 <= i < |s| ==> s[i] as int < 128
    ensures |r| == |s|
    ensures forall i :: 0 <= i < |s| ==> r[i] == s[i] as int
  {
    seq(|s|, i requires 0 <= i < |s| => s[i] as int)
  }

  // ---------------------------------------------------------------- strtr

  /**
    The byte that strtr($s, $from, $to) puts in place of c: only the first
    min(|from|, |to|) bytes of from take part, and when a byte occurs twice in
    from the later occurrence wins.
  */
  function TranslateByte(c: Byte, from: Bytes, to: Bytes): Byte
    decreases |from|
  {
    var n := if |from| < |to| then |from| else |to|;
    if n == 0 then c
    else if from[n - 1] == c then to[n - 1]
    else TranslateByte(c, from[..n - 1], to[..n - 1])
  }

  /** strtr($s, $from, $to): translates s byte by byte. */
  function Strtr(s: Bytes, from: Bytes, to: Bytes): Bytes
  {
    seq(|s|, i requires 0 <= i < |s| => TranslateByte(s[i], from, to))
  }

  // ---------------------------------------------------------------- rtrim

  /** rtrim($s, $c) with a one-character list: removes every trailing c. */
  function RTrim(s: Bytes, c: Byte): (r: Bytes)
    ensures r <= s
    ensures |r| == 0 || r[|r| - 1] != c
    ensures forall i :: |r| <= i < |s| ==> s[i] == c
    decreases |s|
  {
    if |s| > 0 && s[|s| - 1] == c then RTrim(s[..|s| - 1], c) else s
  }

  // ---------------------------------------------------------------- str_pad

  /**
    str_pad($s, $length, $p, STR_PAD_RIGHT) with a one-byte pad string: appends p
    until s is length bytes long; a length at or below |s| leaves s unchanged.
  */
  function StrPadRight(s: Bytes, length: int, p: Byte): (r: Bytes)
    ensures |r| == if length <= |s| then |s| else length
    ensures s <= r
    ensures forall i :: |s| <= i < |r| ==> r[i] == p
  {
    if length <= |s| then s else s + seq(length - |s|, _ => p)
  }

  // ---------------------------------------------------------------- explode / implode

  /** implode($d, $parts): the parts joined by d. */
  function Implode(parts: seq<Bytes>, d: Byte): Bytes
    requires |parts| >= 1
  {
    if |parts| == 1 then parts[0] else parts[0] + [d] + Implode(parts[1..], d)
  }

  /** The position of the first d in s. */
  function IndexOf(s: Bytes, d: Byte): (i: nat)
    requires d in s
    ensures i < |s| && s[i] == d && d !in s[..i]
  {
    if s[0] == d then 0
    else
      assert s == [s[0]] + s[1..];
      1 + IndexOf(s[1..], d)
  }

  /**
    explode($d, $s) with a one-byte separator and no limit: the maximal runs of s
    between separators, empty runs included; an empty s gives one empty part.
  */
  function Explode(s: Bytes, d: Byte): (parts: seq<Bytes>)
    ensures |parts| >= 1
    ensures (|parts| == 1) == (d !in s)
    ensures forall k :: 0 <= k < |parts| ==> d !in parts[k]
    decreases |s|
  {
    if d !in s then [s]
    else
      var i := IndexOf(s, d);
      [s[..i]] + Explode(s[i + 1..], d)
  }

  /** The first separator ends the first part. */
  lemma ExplodeAfter(a: Bytes, b: Bytes, d: Byte)
    requires d !in a
    ensures Explode(a + [d] + b, d) == [a] + Explode(b, d)
  {
    var s := a + [d] + b;
    var i := IndexOf(s, d);
    assert s[..|a|] == a && s[|a|] == d;
    assert i == |a|;
    assert s[i + 1..] == b;
  }

  /** Three separator-free parts joined by the separator explode back into them. */
  lemma ExplodeThree(a: Bytes, b: Bytes, c: Bytes, d: Byte)
    requires d !in a && d !in b && d !in c
    ensures Explode(a + [d] + b + [d] + c, d) == [a, b, c]
  {
    var bc := b + [d] + c;
    var s := a + [d] + bc;
    assert a + [d] + b + [d] + c == s;
    assert [a] + ([b] + [c]) == [a, b, c];
    assert Explode(c, d) == [c];
    assert Explode(bc, d) == [b] + Explode(c, d) by { ExplodeAfter(b, c, d); }
    assert Explode(s, d) == [a] + Explode(bc, d) by { ExplodeAfter(a, bc, d); }
  }

  /** Whatever follows a third separator only adds parts after the first three. */
  lemma ExplodeThreeThenRest(a: Bytes, b: Bytes, c: Bytes, rest: Bytes, d: Byte)
    requires d !in a && d !in b && d !in c
    ensures Explode(a + [d] + b + [d] + c + [d] + rest, d) == [a, b, c] + Explode(rest, d)
  {
    var cr := c + [d] + rest;
    var bcr := b + [d] + cr;
    var s := a + [d] + bcr;
    assert a + [d] + b + [d] + c + [d] + rest == s;
    var tail := Explode(rest, d);
    assert [a] + ([b] + ([c] + tail)) == [a, b, c] + tail;
    assert Explode(cr, d) == [c] + Explode(rest, d) by { ExplodeAfter(c, rest, d); }
    assert Explode(bcr, d) == [b] + Explode(cr, d) by { ExplodeAfter(b, cr, d); }
    assert Explode(s, d) == [a] + Explode(bcr, d) by { ExplodeAfter(a, bcr, d); }
  }

  /** explode undoes implode when no part contains the separator. */
  lemma {:induction false} ExplodeImplode(parts: seq<Bytes>, d: Byte)
    requires |parts| >= 1
    requires forall k :: 0 <= k < |parts| ==> d !in parts[k]
    ensures Explode(Implode(parts, d), d) == parts
    decreases |parts|
  {
    if |parts| > 1 {
      ExplodeImplode(parts[1..], d);
      ExplodeAfter(parts[0], Implode(parts[1..], d), d);
      assert [parts[0]] + parts[1..] == parts;
    }
  }

  /** implode undoes explode: the parts of s, joined again, give s back. */
  lemma {:induction false} ImplodeExplode(s: Bytes, d: Byte)
    ensures Implode(Explode(s, d), d) == s
    decreases |s|
  {
    if d in s {
      var i := IndexOf(s, d);
      var tail := s[i + 1..];
      ExplodeAtFirst(s, d);
      ImplodeExplode(tail, d);
      ImplodeCons(s[..i], Explode(tail, d), d);
      SplitAround(s, i);
    }
  }

  /** Explode splits off the run before the first separator. */
  lemma ExplodeAtFirst(s: Bytes, d: Byte)
    requires d in s
    ensures Explode(s, d) == [s[..IndexOf(s, d)]] + Explode(s[IndexOf(s, d) + 1..], d)
  {
  }

  /** Implode puts the separator between the first part and the join of the rest. */
  lemma ImplodeCons(head: Bytes, rest: seq<Bytes>, d: Byte)
    requires |rest| >= 1
    ensures Implode([head] + rest, d) == head + [d] + Implode(rest, d)
  {
    var parts := [head] + rest;
    assert parts[0] == head && parts[1..] == rest;
  }

  lemma SplitAround(s: Bytes, i: nat)
    requires i < |s|
    ensures s == s[..i] + [s[i]] + s[i + 1..]
  {
  }

  // ---------------------------------------------------------------- str_replace

  /**
    str_replace($search, $replace, $s): scans s from the left and replaces each
    non-overlapping occurrence of search; replaced text is not scanned again. An
    empty search leaves s unchanged.
  */
  function StrReplace(search: Bytes, replace: Bytes, s: Bytes): Bytes
    decreases |s|
  {
    if |search| == 0 || |s| == 0 then s
    else if search <= s then replace + StrReplace(search, replace, s[|search|..])
    else [s[0]] + StrReplace(search, replace, s[1..])
  }

  /**
    A search text whose last byte occurs nowhere else in it cannot overlap itself,
    so an occurrence placed between a and b is always found and replaced, and the
    scan treats a and b as if they stood alone.
  */
  lemma {:induction false} StrReplaceAround(search: Bytes, replace: Bytes, a: Bytes, b: Bytes)
    requires |search| > 0 && search[|search| - 1] !in search[..|search| - 1]
    ensures StrReplace(search, replace, a + search + b)
         == StrReplace(search, replace, a) + replace + StrReplace(search, replace, b)
    decreases |a|, 1
  {
    if |a| == 0 {
      assert a + search + b == search + b;
      assert (search + b)[|search|..] == b;
    } else if |search| <= |a| && search <= a {
      StrReplaceAroundMatch(search, replace, a, b);
    } else {
      StrReplaceAroundSkip(search, replace, a, b);
    }
  }

  /** StrReplaceAround when a starts with the search text. */
  lemma {:induction false} StrReplaceAroundMatch(search: Bytes, replace: Bytes, a: Bytes, b: Bytes)
    requires |search| > 0 && search[|search| - 1] !in search[..|search| - 1]
    requires |search| <= |a| && search <= a
    ensures StrReplace(search, replace, a + search + b)
         == StrReplace(search, replace, a) + replace + StrReplace(search, replace, b)
    decreases |a|, 0
  {
    var rest, tail := StrReplace(search, replace, a[|search|..]), StrReplace(search, replace, b);
    var whole, after := StrReplace(search, replace, a + search + b), StrReplace(search, replace, a[|search|..] + search + b);
    assert whole == replace + after && StrReplace(search, replace, a) == replace + rest by {
      StrReplaceMatchFirst(search, replace, a, b);
    }
    assert after == rest + replace + tail by {
      StrReplaceAround(search, replace, a[|search|..], b);
    }
    ConcatRegroup(replace, rest, replace, tail);
  }

  /** StrReplaceAround when a does not start with the search text. */
  lemma {:induction false} StrReplaceAroundSkip(search: Bytes, replace: Bytes, a: Bytes, b: Bytes)
    requires |search| > 0 && search[|search| - 1] !in search[..|search| - 1]
    requires |a| > 0 && !(|search| <= |a| && search <= a)
    ensures StrReplace(search, replace, a + search + b)
         == StrReplace(search, replace, a) + replace + StrReplace(search, replace, b)
    decreases |a|, 0
  {
    var rest, tail := StrReplace(search, replace, a[1..]), StrReplace(search, replace, b);
    var whole, after := StrReplace(search, replace, a + search + b), StrReplace(search, replace, a[1..] + search + b);
    assert whole == [a[0]] + after && StrReplace(search, replace, a) == [a[0]] + rest by {
      StrReplaceSkipFirst(search, replace, a, b);
    }
    assert after == rest + replace + tail by {
      StrReplaceAround(search, replace, a[1..], b);
    }
    ConcatRegroup([a[0]], rest, replace, tail);
  }

  lemma ConcatRegroup(w: Bytes, x: Bytes, y: Bytes, z: Bytes)
    ensures w + (x + y + z) == (w + x) + y + z
  {
  }

  /** When a starts with the search text, so does a + search + b, and both scans replace it first. */
  lemma StrReplaceMatchFirst(search: Bytes, replace: Bytes, a: Bytes, b: Bytes)
    requires 0 < |search| <= |a| && search <= a
    ensures StrReplace(search, replace, a + search + b)
         == replace + StrReplace(search, replace, a[|search|..] + search + b)
    ensures StrReplace(search, replace, a) == replace + StrReplace(search, replace, a[|search|..])
  {
    var s := a + search + b;
    assert s[..|search|] == a[..|search|];
    assert s[|search|..] == a[|search|..] + search + b;
  }

  /**
    When a does not start with the search text, neither does a + search + b
    (the search text cannot overlap itself), and both scans keep the first byte.
  */
  lemma StrReplaceSkipFirst(search: Bytes, replace: Bytes, a: Bytes, b: Bytes)
    requires |search| > 0 && search[|search| - 1] !in search[..|search| - 1]
    requires |a| > 0 && !(|search| <= |a| && search <= a)
    ensures StrReplace(search, replace, a + search + b)
         == [a[0]] + StrReplace(search, replace, a[1..] + search + b)
    ensures StrReplace(search, replace, a) == [a[0]] + StrReplace(search, replace, a[1..])
  {
    var n := |search|;
    var s := a + search + b;
    if n > |a| {
      assert s[n - 1] == search[n - 1 - |a|];
      assert search[n - 1 - |a|] in search[..n - 1];
    } else {
      assert s[..n] == a[..n];
    }
    assert !(search <= s);
    assert s[1..] == a[1..] + search + b;
  }

  /** A text without the last byte of the search text has no occurrence and is left as it is. */
  lemma {:induction false} StrReplaceWithoutOccurrence(search: Bytes, replace: Bytes, s: Bytes)
    requires |search| > 0 && search[|search| - 1] !in s
    ensures StrReplace(search, replace, s) == s
    decreases |s|
  {
    if |s| > 0 {
      if |search| <= |s| {
        assert s[|search| - 1] != search[|search| - 1];
      }
      assert !(search <= s);
      StrReplaceWithoutOccurrence(search, replace, s[1..]);
      assert [s[0]] + s[1..] == s;
    }
  }
}
