/** Values and helpers shared by every part of the model: an optional value, the
    handful of JavaScript string operations the application relies on (trim,
    lower-casing, substring search, split and join, number to string and back), and
    the list operations it performs on fetched rows (filter, de-duplication and a
    stable sort by an integer key). */
module Common {

  datatype Option<T> = None | Some(value: T)

  function OrElse<T>(o: Option<T>, default: T): T
  {
    match o
    case Some(v) => v
    case None => default
  }

  function Min(a: int, b: int): int { if a <= b then a else b }
  function Max(a: int, b: int): int { if a >= b then a else b }

  // ---------------------------------------------------------------------------
  // Characters and strings

  /** The white-space characters `String.prototype.trim` removes: the ECMAScript
      white space (tab, vertical tab, form feed, space, no-break space, the
      byte-order mark and the other space separators) and the line terminators. */
  predicate IsSpace(c: char)
  {
    c == ' ' || c == '\t' || c == '\n' || c == '\r' || c == '\U{B}' || c == '\U{C}'
    || c == '\U{A0}' || c == '\U{FEFF}' || c == '\U{1680}' || ('\U{2000}' <= c <= '\U{200A}')
    || c == '\U{2028}' || c == '\U{2029}' || c == '\U{202F}' || c == '\U{205F}' || c == '\U{3000}'
  }

  /** Drops the leading white space. */
  function TrimStart(s: string): (r: string)
    ensures |r| <= |s| && r == s[|s| - |r|..]
    ensures forall i :: 0 <= i < |s| - |r| ==> IsSpace(s[i])
    ensures r == [] || !IsSpace(r[0])
  {
    if s != [] && IsSpace(s[0]) then
      var tail := s[1..];
      var r := TrimStart(tail);
      assert tail[|tail| - |r|..] == s[|s| - |r|..];
      assert forall i :: 1 <= i < |s| - |r| ==> s[i] == tail[i - 1];
      r
    else s
  }

  /** Drops the trailing white space. */
  function TrimEnd(s: string): (r: string)
    ensures |r| <= |s| && r == s[..|r|]
    ensures forall i :: |r| <= i < |s| ==> IsSpace(s[i])
    ensures r == [] || !IsSpace(r[|r| - 1])
  {
    if s != [] && IsSpace(s[|s| - 1]) then
      var init := s[..|s| - 1];
      var r := TrimEnd(init);
      assert init[..|r|] == s[..|r|];
      assert forall i :: |r| <= i < |s| - 1 ==> s[i] == init[i];
      r
    else s
  }

  /** `s.trim()` */
  function Trim(s: string): string
  {
    TrimEnd(TrimStart(s))
  }

  /** Lower-case mapping of `toLowerCase` for ASCII and the Latin-1 capitals
      (U+00C0..U+00DE except the multiplication sign U+00D7). */
  function LowerChar(c: char): char
  {
    if 'A' <= c <= 'Z' || ('\U{C0}' <= c <= '\U{DE}' && c != '\U{D7}') then
      (c as int + 32) as char
    else c
  }

  /** `s.toLowerCase()` */
  function ToLower(s: string): (r: string)
    ensures |r| == |s|
    ensures forall i :: 0 <= i < |s| ==> r[i] == LowerChar(s[i])
  {
    if s == [] then [] else [LowerChar(s[0])] + ToLower(s[1..])
  }

  predicate StartsWith(s: string, prefix: string)
  {
    |prefix| <= |s| && s[..|prefix|] == prefix
  }

  /** `s.includes(sub)`: `sub` occurs somewhere in `s`. */
  predicate Includes(s: string, sub: string)
    decreases |s|
  {
    StartsWith(s, sub) || (s != [] && Includes(s[1..], sub))
  }

  /** `sub` occurs in `s` starting at index `i`. */
  predicate OccursAt(s: string, sub: string, i: int)
  {
    0 <= i && i + |sub| <= |s| && s[i..i + |sub|] == sub
  }

  /** An occurrence in a suffix is an occurrence in the whole text, shifted. */
  lemma OccursInSuffix(s: string, sub: string, off: nat, j: nat)
    requires off <= |s|
    ensures OccursAt(s[off..], sub, j) <==> OccursAt(s, sub, off + j)
  {
    if j + |sub| <= |s| - off {
      assert s[off..][j..j + |sub|] == s[off + j..off + j + |sub|];
    }
  }

  /** `Includes` is exactly "`sub` occurs at some index of `s`". */
  lemma {:induction false} IncludesIff(s: string, sub: string)
    ensures Includes(s, sub) <==> exists i :: OccursAt(s, sub, i)
    decreases |s|
  {
    if StartsWith(s, sub) {
      assert OccursAt(s, sub, 0);
    } else if s == [] {
    } else {
      IncludesIff(s[1..], sub);
      if exists i :: OccursAt(s[1..], sub, i) {
        var i :| OccursAt(s[1..], sub, i);
        assert s[i + 1..i + 1 + |sub|] == s[1..][i..i + |sub|];
        assert OccursAt(s, sub, i + 1);
      }
      if exists i :: OccursAt(s, sub, i) {
        var i :| OccursAt(s, sub, i);
        assert i != 0 by { assert s[..|sub|] == s[0..0 + |sub|]; }
        assert s[1..][i - 1..i - 1 + |sub|] == s[i..i + |sub|];
        assert OccursAt(s[1..], sub, i - 1);
      }
    }
  }

  /** A text lacking one of the key's characters does not include the key. */
  lemma MissingCharExcludes(s: string, sub: string, i: int)
    requires 0 <= i < |sub| && sub[i] !in s
    ensures !Includes(s, sub)
  {
    forall j | 0 <= j ensures !OccursAt(s, sub, j) {
      if j + |sub| <= |s| {
        assert s[j..j + |sub|][i] == s[j + i];
        assert s[j + i] in s;
      }
    }
    IncludesIff(s, sub);
  }

  /** Lower-casing never yields an ASCII capital. */
  lemma NoCapitalAfterLower(x: string, c: char)
    requires 'A' <= c <= 'Z'
    ensures c !in ToLower(x)
  {
  }

  /** A key starting with a capital occurs in no lower-cased text. */
  lemma CapitalKeyNotInLower(x: string, key: string)
    requires key != [] && 'A' <= key[0] <= 'Z'
    ensures !Includes(ToLower(x), key)
  {
    NoCapitalAfterLower(x, key[0]);
    MissingCharExcludes(ToLower(x), key, 0);
  }

  /** Every string includes the empty string and itself. */
  lemma IncludesSelf(s: string)
    ensures Includes(s, []) && Includes(s, s)
  {
    assert StartsWith(s, []) && StartsWith(s, s);
  }

  /** `s.split(sep)` for a non-empty separator: the pieces between the
      left-to-right, non-overlapping occurrences of `sep`. */
  function SplitStr(s: string, sep: string): (parts: seq<string>)
    requires sep != []
    ensures |parts| >= 1
    decreases |s|
  {
    if |s| < |sep| then [s]
    else if s[..|sep|] == sep then [[]] + SplitStr(s[|sep|..], sep)
    else
      var rest := SplitStr(s[1..], sep);
      [[s[0]] + rest[0]] + rest[1..]
  }

  /** `parts.join(sep)` */
  function Join(parts: seq<string>, sep: string): string
  {
    if parts == [] then []
    else if |parts| == 1 then parts[0]
    else parts[0] + sep + Join(parts[1..], sep)
  }

  /** Adding a character in front of the first piece adds it in front of the join. */
  lemma JoinConsFirst(c: char, parts: seq<string>, sep: string)
    requires parts != []
    ensures Join([[c] + parts[0]] + parts[1..], sep) == [c] + Join(parts, sep)
  {
    var q := [[c] + parts[0]] + parts[1..];
    assert q[1..] == parts[1..];
  }

  /** Splitting and joining again gives back the original string. */
  lemma {:induction false} JoinSplit(s: string, sep: string)
    requires sep != []
    ensures Join(SplitStr(s, sep), sep) == s
    decreases |s|
  {
    if |s| < |sep| {
    } else if s[..|sep|] == sep {
      var rest := SplitStr(s[|sep|..], sep);
      JoinSplit(s[|sep|..], sep);
      var q := [[]] + rest;
      assert q[1..] == rest;
      assert Join(q, sep) == [] + sep + Join(rest, sep);
      assert s == s[..|sep|] + s[|sep|..];
    } else {
      var rest := SplitStr(s[1..], sep);
      JoinSplit(s[1..], sep);
      JoinConsFirst(s[0], rest, sep);
      assert s == [s[0]] + s[1..];
    }
  }

  /** Splitting on one character a string free of that character gives one piece. */
  lemma {:induction false} SplitNoSep(s: string, c: char)
    requires c !in s
    ensures SplitStr(s, [c]) == [s]
    decreases |s|
  {
    if |s| >= 1 {
      assert s[..1] != [c] by { assert s[0] in s; }
      SplitNoSep(s[1..], c);
      assert [s[0]] + s[1..] == s;
    }
  }

  /** A string in which the separator never occurs splits into itself alone;
      one in which it occurs splits into two pieces or more. */
  lemma {:induction false} SplitOnePieceIff(s: string, sep: string)
    requires sep != []
    ensures |SplitStr(s, sep)| == 1 <==> forall i :: !OccursAt(s, sep, i)
    ensures (forall i :: !OccursAt(s, sep, i)) ==> SplitStr(s, sep) == [s]
    decreases |s|
  {
    if |s| < |sep| {
    } else if s[..|sep|] == sep {
      assert s[0..0 + |sep|] == s[..|sep|];
      assert OccursAt(s, sep, 0);
    } else {
      SplitOnePieceIff(s[1..], sep);
      forall i ensures OccursAt(s[1..], sep, i) <==> OccursAt(s, sep, i + 1) {
        if 0 <= i && i + 1 + |sep| <= |s| {
          assert s[1..][i..i + |sep|] == s[i + 1..i + 1 + |sep|];
        }
      }
      assert !OccursAt(s, sep, 0) by {
        assert s[0..0 + |sep|] == s[..|sep|];
      }
      forall i | OccursAt(s, sep, i) ensures OccursAt(s[1..], sep, i - 1) {
        assert i != 0;
      }
      assert [s[0]] + s[1..] == s;
    }
  }

  /** The first piece of a split ends at the first occurrence of the separator,
      and the rest is the split of what follows it. */
  lemma {:induction false} SplitAtFirst(s: string, sep: string, i: nat)
    requires sep != [] && OccursAt(s, sep, i)
    requires forall j :: 0 <= j < i ==> !OccursAt(s, sep, j)
    ensures SplitStr(s, sep) == [s[..i]] + SplitStr(s[i + |sep|..], sep)
    decreases i
  {
    if i == 0 {
      assert s[..|sep|] == s[0..0 + |sep|];
    } else {
      assert s[..|sep|] != sep by {
        assert s[..|sep|] == s[0..0 + |sep|];
        assert !OccursAt(s, sep, 0);
      }
      var t := s[1..];
      forall j | 0 <= j < i ensures OccursAt(t, sep, j) <==> OccursAt(s, sep, j + 1) {
        OccursShift(s, sep, j);
      }
      SplitAtFirst(t, sep, i - 1);
      SplitAtFirstStep(s, sep, i);
    }
  }

  /** An occurrence in the tail of `s` is one in `s`, one index further on. */
  lemma OccursShift(s: string, sep: string, j: nat)
    requires s != []
    ensures OccursAt(s[1..], sep, j) <==> OccursAt(s, sep, j + 1)
  {
    if j + 1 + |sep| <= |s| {
      assert s[1..][j..j + |sep|] == s[j + 1..j + 1 + |sep|];
    }
  }

  /** With occurrences at `i` and `k` and none before `k` other than at `i`,
      the first two pieces are the text before `i` and the text between. */
  lemma SplitFirstTwo(s: string, sep: string, i: nat, k: nat)
    requires sep != [] && OccursAt(s, sep, i) && OccursAt(s, sep, k) && i + |sep| <= k
    requires forall j :: 0 <= j < i ==> !OccursAt(s, sep, j)
    requires forall j :: i + |sep| <= j < k ==> !OccursAt(s, sep, j)
    ensures |SplitStr(s, sep)| >= 2
    ensures SplitStr(s, sep)[0] == s[..i] && SplitStr(s, sep)[1] == s[i + |sep|..k]
  {
    var q := SplitStr(s[i + |sep|..], sep);
    SplitAtFirst(s, sep, i);
    FirstPieceOfSuffix(s, sep, i + |sep|, k);
    var p := [s[..i]] + q;
    assert SplitStr(s, sep) == p && q[0] == s[i + |sep|..k];
    assert |p| >= 2 && p[0] == s[..i] && p[1] == q[0];
  }

  /** The first piece of the split of `s[off..]` runs up to the first
      occurrence at or after `off`. */
  lemma FirstPieceOfSuffix(s: string, sep: string, off: nat, k: nat)
    requires sep != [] && off <= k && OccursAt(s, sep, k)
    requires forall j :: off <= j < k ==> !OccursAt(s, sep, j)
    ensures SplitStr(s[off..], sep)[0] == s[off..k]
  {
    var rest := s[off..];
    FirstInSuffix(s, sep, off, k);
    SplitAtFirst(rest, sep, k - off);
    assert rest[..k - off] == s[off..k];
  }

  /** The first occurrence at or after `off` is the first one in `s[off..]`. */
  lemma FirstInSuffix(s: string, sep: string, off: nat, k: nat)
    requires off <= k && OccursAt(s, sep, k)
    requires forall j :: off <= j < k ==> !OccursAt(s, sep, j)
    ensures OccursAt(s[off..], sep, k - off)
    ensures forall j :: 0 <= j < k - off ==> !OccursAt(s[off..], sep, j)
  {
    OccursInSuffix(s, sep, off, k - off);
    forall j | 0 <= j < k - off ensures !OccursAt(s[off..], sep, j) {
      OccursInSuffix(s, sep, off, j);
    }
  }

  lemma SplitAtFirstStep(s: string, sep: string, i: nat)
    requires sep != [] && 0 < i && i + |sep| <= |s| && s[..|sep|] != sep
    requires SplitStr(s[1..], sep) == [s[1..][..i - 1]] + SplitStr(s[1..][i - 1 + |sep|..], sep)
    ensures SplitStr(s, sep) == [s[..i]] + SplitStr(s[i + |sep|..], sep)
  {
    var t := s[1..];
    SplitNoSepAtHead(s, sep);
    SlicesOfTail(s, i, i + |sep|);
    PieceInFront(s[0], t[..i - 1], SplitStr(s[i + |sep|..], sep), SplitStr(t, sep));
  }

  /** One step of the split where `s` does not start with the separator. */
  lemma SplitNoSepAtHead(s: string, sep: string)
    requires sep != [] && |sep| <= |s| && s[..|sep|] != sep
    ensures SplitStr(s, sep) == [[s[0]] + SplitStr(s[1..], sep)[0]] + SplitStr(s[1..], sep)[1..]
  {
  }

  /** Slices of the tail of `s` are slices of `s`, one index further on. */
  lemma SlicesOfTail<T>(s: seq<T>, i: nat, k: nat)
    requires 0 < i <= k <= |s|
    ensures [s[0]] + s[1..][..i - 1] == s[..i]
    ensures s[1..][k - 1..] == s[k..]
  {
  }

  lemma PieceInFront(c: char, a: string, tail: seq<string>, rest: seq<string>)
    requires rest == [a] + tail
    ensures [[c] + rest[0]] + rest[1..] == [[c] + a] + tail
  {
    assert rest[1..] == tail;
  }

  /** Prefixing a separator-free piece to a string adds it to the first piece. */
  lemma {:induction false} SplitPrefix(p: string, c: char, s: string)
    requires c !in p
    ensures SplitStr(p + s, [c]) == [p + SplitStr(s, [c])[0]] + SplitStr(s, [c])[1..]
    decreases |p|
  {
    if p != [] {
      assert p[0] in p;
      var ps := p + s;
      assert ps[..1] != [c];
      assert ps[1..] == p[1..] + s;
      SplitPrefix(p[1..], c, s);
      assert [ps[0]] + (p[1..] + SplitStr(s, [c])[0]) == p + SplitStr(s, [c])[0];
    } else {
      assert p + s == s;
      var parts := SplitStr(s, [c]);
      assert parts == [parts[0]] + parts[1..];
      assert p + parts[0] == parts[0];
    }
  }

  /** Joining non-empty-list pieces that do not contain a one-character separator,
      then splitting on it, gives the pieces back. */
  lemma {:induction false} SplitJoin(parts: seq<string>, c: char)
    requires parts != []
    requires forall p <- parts :: c !in p
    ensures SplitStr(Join(parts, [c]), [c]) == parts
    decreases |parts|
  {
    if |parts| == 1 {
      SplitNoSep(parts[0], c);
    } else {
      var tail := Join(parts[1..], [c]);
      SplitJoin(parts[1..], c);
      var ws := [c] + tail;
      assert ws[..1] == [c];
      assert ws[1..] == tail;
      assert SplitStr(ws, [c]) == [[]] + parts[1..];
      assert Join(parts, [c]) == parts[0] + ws;
      SplitPrefix(parts[0], c, ws);
      assert parts[0] + [] == parts[0];
      assert [parts[0]] + parts[1..] == parts;
    }
  }

  /** No piece of a split on one character contains that character. */
  lemma {:induction false} SplitPiecesFree(s: string, c: char)
    ensures forall p <- SplitStr(s, [c]) :: c !in p
    decreases |s|
  {
    if |s| < 1 {
    } else if s[..1] == [c] {
      SplitPiecesFree(s[1..], c);
    } else {
      SplitPiecesFree(s[1..], c);
      var rest := SplitStr(s[1..], [c]);
      assert rest[0] in rest;
      assert forall p <- rest[1..] :: p in rest;
      assert s[0] != c by { assert s[..1] == [s[0]]; }
    }
  }

  /** Joining non-empty pieces gives the empty text only for no pieces. */
  lemma {:induction false} JoinEmptyIff(parts: seq<string>, sep: string)
    requires forall p <- parts :: p != []
    ensures Join(parts, sep) == [] <==> parts == []
  {
    if parts != [] {
      assert parts[0] in parts;
      if |parts| > 1 {
        assert |Join(parts, sep)| >= |parts[0]|;
      }
    }
  }

  /** A character other than the separator occurs in a join exactly when it
      occurs in one of the pieces. */
  lemma {:induction false} CharInJoin(parts: seq<string>, c: char, d: char)
    requires d != c
    ensures d in Join(parts, [c]) <==> exists p <- parts :: d in p
    decreases |parts|
  {
    if |parts| > 1 {
      CharInJoin(parts[1..], c, d);
      var j := Join(parts[1..], [c]);
      assert Join(parts, [c]) == parts[0] + [c] + j;
      assert forall p <- parts :: p == parts[0] || p in parts[1..];
      assert forall p <- parts[1..] :: p in parts;
      assert parts[0] in parts;
    } else if |parts| == 1 {
      assert parts == [parts[0]];
    }
  }

  /** `s.includes(d)` for a one-character `d` is membership. */
  lemma IncludesChar(s: string, d: char)
    ensures Includes(s, [d]) <==> d in s
  {
    IncludesIff(s, [d]);
    if d in s {
      var i :| 0 <= i < |s| && s[i] == d;
      assert s[i..i + 1] == [d];
      assert OccursAt(s, [d], i);
    }
    if exists i :: OccursAt(s, [d], i) {
      var i :| OccursAt(s, [d], i);
      assert s[i] == s[i..i + 1][0];
    }
  }

  // ---------------------------------------------------------------------------
  // Numbers as decimal text

  function DigitChar(d: nat): char
    requires d < 10
  {
    ('0' as int + d) as char
  }

  predicate IsDigit(c: char) { '0' <= c <= '9' }

  function DigitValue(c: char): nat
    requires IsDigit(c)
  {
    c as int - '0' as int
  }

  /** Decimal text of a natural number, without leading zeros. */
  function NatToString(n: nat): (r: string)
    ensures r != [] && forall c <- r :: IsDigit(c)
  {
    if n < 10 then [DigitChar(n)] else NatToString(n / 10) + [DigitChar(n % 10)]
  }

  /** `String(n)` for an integer `n`. */
  function IntToString(n: int): string
  {
    if n < 0 then "-" + NatToString(-n) else NatToString(n)
  }

  /** The value of a string of decimal digits. */
  function DigitsValue(s: string): nat
    requires forall c <- s :: IsDigit(c)
  {
    if s == [] then 0 else 10 * DigitsValue(s[..|s| - 1]) + DigitValue(s[|s| - 1])
  }

  /** Length of the leading run of decimal digits. */
  function DigitRun(s: string): (k: nat)
    ensures k <= |s| && forall i :: 0 <= i < k ==> IsDigit(s[i])
    ensures k < |s| ==> !IsDigit(s[k])
  {
    if s != [] && IsDigit(s[0]) then 1 + DigitRun(s[1..]) else 0
  }

  /** `parseInt(s)` read in base 10: optional leading white space, an optional
      sign, then the leading run of digits; `None` stands for NaN (no digit at
      all). The source passes no radix, which differs from base 10 only for text
      starting with `0x`; its inputs come from a number field and a select of
      grades, which never yield such text. */
  function ParseInt(s: string): Option<int>
  {
    var t := TrimStart(s);
    var neg := t != [] && t[0] == '-';
    var body := if t != [] && (t[0] == '-' || t[0] == '+') then t[1..] else t;
    var k := DigitRun(body);
    if k == 0 then None
    else
      var v: int := DigitsValue(body[..k]);
      Some(if neg then -v else v)
  }

  lemma {:induction false} DigitsOfNat(n: nat)
    ensures DigitsValue(NatToString(n)) == n
  {
    if n >= 10 {
      DigitsOfNat(n / 10);
      var s := NatToString(n);
      assert s[..|s| - 1] == NatToString(n / 10);
    }
  }

  lemma {:induction false} DigitRunOfDigits(s: string)
    requires forall c <- s :: IsDigit(c)
    ensures DigitRun(s) == |s|
  {
    if s != [] {
      assert s[0] in s;
      DigitRunOfDigits(s[1..]);
    }
  }

  /** Reading back the decimal text of any integer gives that integer. */
  lemma ParseIntToString(n: int)
    ensures ParseInt(IntToString(n)) == Some(n)
  {
    if n < 0 {
      var m: nat := -n;
      ParseSignedDigits(NatToString(m));
      DigitsOfNat(m);
      assert IntToString(n) == ['-'] + NatToString(m);
    } else {
      ParseDigits(NatToString(n));
      DigitsOfNat(n);
    }
  }

  /** Text made of digits reads as their value. */
  lemma ParseDigits(digits: string)
    requires digits != [] && forall c <- digits :: IsDigit(c)
    ensures ParseInt(digits) == Some(DigitsValue(digits))
  {
    assert digits[0] in digits;
    assert TrimStart(digits) == digits by {
      assert !IsSpace(digits[0]);
    }
    DigitRunOfDigits(digits);
    assert digits[..|digits|] == digits;
  }

  /** A minus sign followed by digits reads as the negated value. */
  lemma ParseSignedDigits(digits: string)
    requires digits != [] && forall c <- digits :: IsDigit(c)
    ensures ParseInt(['-'] + digits) == Some(-(DigitsValue(digits) as int))
  {
    var s := ['-'] + digits;
    ParseMinus(s);
    var rest := s[1..];
    assert rest == digits;
    DigitRunOfDigits(digits);
    var k := DigitRun(rest);
    assert k == |digits|;
    assert rest[..k] == digits;
  }

  /** Text starting with a minus sign reads as the negated leading digits after it. */
  lemma ParseMinus(s: string)
    requires s != [] && s[0] == '-'
    ensures var k := DigitRun(s[1..]);
      ParseInt(s) == if k == 0 then None else Some(-(DigitsValue(s[1..][..k]) as int))
  {
    TrimStartKeeps(s);
  }

  lemma TrimStartKeeps(s: string)
    requires s != [] && !IsSpace(s[0])
    ensures TrimStart(s) == s
  {
  }

  // ---------------------------------------------------------------------------
  // Lists

  /** `s.findIndex(p)`: the index of the first element satisfying `p`. */
  function FindIndex<T>(s: seq<T>, p: T -> bool): (r: Option<nat>)
    ensures r.Some? ==> r.value < |s| && p(s[r.value])
    ensures r.Some? ==> forall j :: 0 <= j < r.value ==> !p(s[j])
    ensures r.None? <==> forall j :: 0 <= j < |s| ==> !p(s[j])
  {
    if s == [] then None
    else if p(s[0]) then Some(0)
    else
      match FindIndex(s[1..], p)
      case None => None
      case Some(k) => Some(k + 1)
  }

  /** `s.find(p)`: the first element satisfying `p`. */
  function Find<T>(s: seq<T>, p: T -> bool): (r: Option<T>)
    ensures r.Some? ==> r.value in s && p(r.value)
    ensures r.None? <==> forall x <- s :: !p(x)
  {
    match FindIndex(s, p)
    case None => None
    case Some(k) => Some(s[k])
  }

  /** `s.filter(p)` */
  function Filter<T(!new)>(s: seq<T>, p: T -> bool): (r: seq<T>)
    ensures |r| <= |s|
    ensures forall x :: x in r <==> x in s && p(x)
  {
    if s == [] then []
    else
      assert s == [s[0]] + s[1..];
      if p(s[0]) then [s[0]] + Filter(s[1..], p)
      else Filter(s[1..], p)
  }

  lemma FilterCons<T(!new)>(s: seq<T>, p: T -> bool)
    requires s != []
    ensures Filter(s, p) == (if p(s[0]) then [s[0]] else []) + Filter(s[1..], p)
  {
  }

  /** `s.filter(p)` keeps everything when `p` holds everywhere. */
  lemma {:induction false} FilterAll<T(!new)>(s: seq<T>, p: T -> bool)
    requires forall x <- s :: p(x)
    ensures Filter(s, p) == s
  {
    if s != [] {
      FilterAll(s[1..], p);
      assert [s[0]] + s[1..] == s;
    }
  }

  /** `s.filter(p)` keeps nothing when `p` holds nowhere. */
  lemma {:induction false} FilterNone<T(!new)>(s: seq<T>, p: T -> bool)
    requires forall x <- s :: !p(x)
    ensures Filter(s, p) == []
  {
    if s != [] {
      assert s[0] in s;
      FilterNone(s[1..], p);
    }
  }

  /** Number of elements of `s` satisfying `p`. */
  function Count<T>(s: seq<T>, p: T -> bool): nat
  {
    if s == [] then 0 else (if p(s[|s| - 1]) then 1 else 0) + Count(s[..|s| - 1], p)
  }

  lemma CountSnoc<T>(s: seq<T>, x: T, p: T -> bool)
    ensures Count(s + [x], p) == Count(s, p) + (if p(x) then 1 else 0)
  {
    assert (s + [x])[..|s|] == s;
  }

  lemma {:induction false} CountIsFilterLength<T(!new)>(s: seq<T>, p: T -> bool)
    ensures Count(s, p) == |Filter(s, p)|
  {
    if s != [] {
      var last := s[|s| - 1];
      var init := s[..|s| - 1];
      CountIsFilterLength(init, p);
      FilterAppend(init, [last], p);
      assert init + [last] == s;
    }
  }

  lemma {:induction false} FilterAppend<T(!new)>(a: seq<T>, b: seq<T>, p: T -> bool)
    ensures Filter(a + b, p) == Filter(a, p) + Filter(b, p)
  {
    if a == [] {
      assert a + b == b;
    } else {
      var ab := a + b;
      assert ab[0] == a[0] && ab[1..] == a[1..] + b;
      FilterAppend(a[1..], b, p);
      FilterCons(ab, p);
      FilterCons(a, p);
      var h := if p(a[0]) then [a[0]] else [];
      assert h + (Filter(a[1..], p) + Filter(b, p)) == (h + Filter(a[1..], p)) + Filter(b, p);
    }
  }

  predicate NoDuplicates<T(==)>(s: seq<T>)
  {
    forall i, j :: 0 <= i < j < |s| ==> s[i] != s[j]
  }

  /** `s.indexOf(x)`: the index of the first occurrence of `x`. */
  function IndexOf<T(==)>(s: seq<T>, x: T): (k: nat)
    requires x in s
    ensures k < |s| && s[k] == x
    ensures forall j :: 0 <= j < k ==> s[j] != x
  {
    if s[0] == x then 0 else 1 + IndexOf(s[1..], x)
  }

  /** Appending leaves the first occurrence of an element already present where
      it was. */
  lemma IndexOfAppend<T>(s: seq<T>, y: T, x: T)
    requires x in s
    ensures x in s + [y] && IndexOf(s + [y], x) == IndexOf(s, x)
  {
    var k := IndexOf(s, x);
    assert (s + [y])[k] == x;
  }

  /** The distinct elements of `s` in order of first appearance
      (`Array.from(new Set(s))`). */
  function Distinct<T(==,!new)>(s: seq<T>): (r: seq<T>)
    ensures NoDuplicates(r)
    ensures forall x :: x in r <==> x in s
    ensures |r| <= |s|
  {
    if s == [] then []
    else
      var init := s[..|s| - 1];
      var d := Distinct(init);
      var last := s[|s| - 1];
      assert s == init + [last];
      assert forall x :: x in s <==> x in init || x == last;
      if last in d then d else d + [last]
  }

  /** `Distinct` keeps the order of first appearance: of two elements it keeps,
      the earlier one first appears earlier in `s`. */
  lemma {:induction false} DistinctOrder<T(!new)>(s: seq<T>)
    ensures forall i, j :: 0 <= i < j < |Distinct(s)| ==>
      Distinct(s)[i] in s && Distinct(s)[j] in s && IndexOf(s, Distinct(s)[i]) < IndexOf(s, Distinct(s)[j])
  {
    if s != [] {
      var init := s[..|s| - 1];
      var last := s[|s| - 1];
      var d := Distinct(init);
      DistinctOrder(init);
      assert s == init + [last];
      var r := Distinct(s);
      assert r == if last in d then d else d + [last];
      forall i, j | 0 <= i < j < |r| ensures r[i] in s && r[j] in s && IndexOf(s, r[i]) < IndexOf(s, r[j]) {
        assert r[i] == d[i] && d[i] in init;
        IndexOfAppend(init, last, d[i]);
        if j < |d| {
          assert r[j] == d[j] && d[j] in init;
          IndexOfAppend(init, last, d[j]);
          assert IndexOf(init, d[i]) < IndexOf(init, d[j]);
        } else {
          assert r[j] == last && last !in init;
          assert IndexOf(s, last) == |s| - 1;
        }
      }
    } else {
      assert Distinct(s) == [];
    }
  }

  /** `s.filter(y => y !== x)`: `s` without any occurrence of `x`, the rest in
      order. */
  function Without<T(==,!new)>(s: seq<T>, x: T): (r: seq<T>)
    ensures forall y :: y in r <==> y in s && y != x
    ensures |r| <= |s|
    ensures x !in s ==> r == s
  {
    if s == [] then []
    else
      assert s == [s[0]] + s[1..];
      (if s[0] == x then [] else [s[0]]) + Without(s[1..], x)
  }

  /** Removing an element just appended, and absent before, gives the list back. */
  lemma {:induction false} WithoutSnoc<T(!new)>(a: seq<T>, x: T)
    requires x !in a
    ensures Without(a + [x], x) == a
  {
    if a == [] {
      assert [] + [x] == [x];
      assert [x][1..] == [];
    } else {
      WithoutSnoc(a[1..], x);
      assert (a + [x])[1..] == a[1..] + [x];
      assert [a[0]] + a[1..] == a;
    }
  }

  /** The multiple-choice toggle of the forms and question screens: a chosen
      element is removed (every occurrence of it), an unchosen one is appended. */
  function Toggle<T(==,!new)>(current: seq<T>, x: T): (r: seq<T>)
    ensures x in current ==> x !in r && forall y :: y != x ==> (y in r <==> y in current)
    ensures x !in current ==> r == current + [x]
  {
    if x in current then Without(current, x) else current + [x]
  }

  /** Toggling the same element twice gives back the same set of elements, and
      the very same list when the element was not chosen. */
  lemma ToggleTwice<T(!new)>(current: seq<T>, x: T)
    ensures forall y :: y in Toggle(Toggle(current, x), x) <==> y in current
    ensures x !in current ==> Toggle(Toggle(current, x), x) == current
  {
    if x !in current {
      assert x in current + [x];
      WithoutSnoc(current, x);
    }
  }

  /** `s.filter((_, i) => i !== index)`: the list without its `index`-th element,
      the others in order; an index out of range removes nothing. */
  function RemoveAt<T>(s: seq<T>, index: int): (r: seq<T>)
    ensures 0 <= index < |s| ==> |r| == |s| - 1
    ensures !(0 <= index < |s|) ==> r == s
    ensures forall k :: 0 <= k < index && k < |r| ==> r[k] == s[k]
    ensures forall k :: 0 <= index <= k < |r| ==> r[k] == s[k + 1]
  {
    if 0 <= index < |s| then s[..index] + s[index + 1..] else s
  }

  /** Appending an element and removing it again gives the list back. */
  lemma RemoveLastAppended<T>(s: seq<T>, x: T)
    ensures RemoveAt(s + [x], |s|) == s
  {
    assert (s + [x])[..|s|] == s;
  }

  /** Every element of `s` has a key no greater than that of any later element. */
  predicate SortedBy<T>(s: seq<T>, key: T -> int)
  {
    forall i, j :: 0 <= i < j < |s| ==> key(s[i]) <= key(s[j])
  }

  lemma SortedHeadIsMin<T>(s: seq<T>, key: T -> int, x: T)
    requires SortedBy(s, key) && x in multiset(s)
    ensures key(s[0]) <= key(x)
  {
    assert x in s;
    var i :| 0 <= i < |s| && s[i] == x;
    if i > 0 {
      assert key(s[0]) <= key(s[i]);
    }
  }

  lemma MultisetTail<T>(a: seq<T>)
    requires a != []
    ensures multiset(a[1..]) == multiset(a) - multiset{a[0]}
  {
    assert a == [a[0]] + a[1..];
  }

  lemma SortedTail<T>(s: seq<T>, key: T -> int)
    requires SortedBy(s, key) && s != []
    ensures SortedBy(s[1..], key)
  {
    forall k, l | 0 <= k < l < |s| - 1 ensures key(s[1..][k]) <= key(s[1..][l]) {
      assert s[1..][k] == s[k + 1] && s[1..][l] == s[l + 1];
    }
  }

  function InsertBy<T>(x: T, s: seq<T>, key: T -> int): (r: seq<T>)
    requires SortedBy(s, key)
    ensures SortedBy(r, key)
    ensures multiset(r) == multiset(s) + multiset{x}
    ensures |r| == |s| + 1
    ensures r[0] == x || (s != [] && r[0] == s[0])
  {
    if s == [] || key(x) <= key(s[0]) then
      ConsSorted(x, s, key);
      [x] + s
    else
      SortedTail(s, key);
      var rest := InsertBy(x, s[1..], key);
      InsertBehindHead(x, s, rest, key);
      [s[0]] + rest
  }

  /** The head of a sorted list stays in front of the rest with `x` inserted. */
  lemma InsertBehindHead<T>(x: T, s: seq<T>, rest: seq<T>, key: T -> int)
    requires SortedBy(s, key) && s != [] && key(s[0]) < key(x)
    requires SortedBy(rest, key) && multiset(rest) == multiset(s[1..]) + multiset{x}
    requires rest[0] == x || (s[1..] != [] && rest[0] == s[1..][0])
    ensures SortedBy([s[0]] + rest, key)
    ensures multiset([s[0]] + rest) == multiset(s) + multiset{x}
  {
    ConsSorted(s[0], rest, key);
    assert s == [s[0]] + s[1..];
  }

  /** An element no greater than the head of a sorted list can go in front. */
  lemma ConsSorted<T>(h: T, t: seq<T>, key: T -> int)
    requires SortedBy(t, key)
    requires t != [] ==> key(h) <= key(t[0])
    ensures SortedBy([h] + t, key)
  {
    var r := [h] + t;
    forall i, j | 0 <= i < j < |r| ensures key(r[i]) <= key(r[j]) {
      if i > 0 {
        assert r[i] == t[i - 1] && r[j] == t[j - 1];
      } else {
        assert r[j] == t[j - 1];
      }
    }
  }

  /** The sort is stable at its head: the first element of least key comes
      first. */
  lemma {:induction false} SortByHeadIsFirstMin<T>(s: seq<T>, key: T -> int, i: nat)
    requires i < |s|
    requires forall j | 0 <= j < |s| :: key(s[i]) <= key(s[j])
    requires forall j | 0 <= j < i :: key(s[i]) < key(s[j])
    ensures SortBy(s, key)[0] == s[i]
    decreases |s|
  {
    assert s == [s[0]] + s[1..];
    var t := SortBy(s[1..], key);
    if i == 0 {
      if t != [] {
        assert t[0] in multiset(s[1..]);
        var j :| 0 <= j < |s[1..]| && s[1..][j] == t[0];
        assert s[1..][j] == s[j + 1];
      }
    } else {
      forall j | 0 <= j < |s[1..]| ensures key(s[1..][i - 1]) <= key(s[1..][j]) {
        assert s[1..][j] == s[j + 1];
      }
      forall j | 0 <= j < i - 1 ensures key(s[1..][i - 1]) < key(s[1..][j]) {
        assert s[1..][j] == s[j + 1];
      }
      SortByHeadIsFirstMin(s[1..], key, i - 1);
    }
  }

  /** `s.sort((a, b) => key(a) - key(b))`: a stable ascending sort by `key`. */
  function SortBy<T>(s: seq<T>, key: T -> int): (r: seq<T>)
    ensures SortedBy(r, key)
    ensures multiset(r) == multiset(s)
    ensures |r| == |s|
  {
    if s == [] then []
    else
      assert s == [s[0]] + s[1..];
      InsertBy(s[0], SortBy(s[1..], key), key)
  }

  // ---------------------------------------------------------------------------
  // JavaScript values

  /** The JavaScript values that answers and stored solutions take: numbers are
      integers (indices), and an array holds option indices. */
  datatype Value = Undefined | Null | Bool(b: bool) | Num(n: int) | Str(s: string) | Arr(items: seq<int>)

  /** Truthiness, as used by `x || default`. */
  predicate Truthy(v: Value)
  {
    match v
    case Undefined => false
    case Null => false
    case Bool(b) => b
    case Num(n) => n != 0
    case Str(s) => s != []
    case Arr(_) => true
  }

  /** `a === b`. Two arrays are distinct objects, so never strictly equal. */
  predicate StrictEquals(a: Value, b: Value)
  {
    match (a, b)
    case (Undefined, Undefined) => true
    case (Null, Null) => true
    case (Bool(x), Bool(y)) => x == y
    case (Num(x), Num(y)) => x == y
    case (Str(x), Str(y)) => x == y
    case _ => false
  }

  /** Strict equality is structural equality on every value except arrays. */
  lemma StrictEqualsIff(a: Value, b: Value)
    ensures StrictEquals(a, b) <==> a == b && !a.Arr?
  {
  }

  function IntsToStrings(xs: seq<int>): (r: seq<string>)
    ensures |r| == |xs|
  {
    if xs == [] then [] else [IntToString(xs[0])] + IntsToStrings(xs[1..])
  }

  /** `String(v)` */
  function ToStr(v: Value): string
  {
    match v
    case Undefined => "undefined"
    case Null => "null"
    case Bool(b) => if b then "true" else "false"
    case Num(n) => IntToString(n)
    case Str(s) => s
    case Arr(xs) => Join(IntsToStrings(xs), ",")
  }

  /** `(v || '').toString()` */
  function TextOrEmpty(v: Value): string
  {
    if Truthy(v) then ToStr(v) else ""
  }

  // ---------------------------------------------------------------------------
  // Facts about trimming and lower-casing

  lemma LowerCharSpace(c: char)
    ensures IsSpace(LowerChar(c)) <==> IsSpace(c)
    ensures IsSpace(c) ==> LowerChar(c) == c
  {
  }

  lemma LowerCharIdempotent(c: char)
    ensures LowerChar(LowerChar(c)) == LowerChar(c)
  {
  }

  lemma {:induction false} ToLowerIdempotent(s: string)
    ensures ToLower(ToLower(s)) == ToLower(s)
  {
    forall i | 0 <= i < |s| ensures ToLower(ToLower(s))[i] == ToLower(s)[i] {
      LowerCharIdempotent(s[i]);
    }
  }

  lemma {:induction false} ToLowerSlice(s: string, i: int, j: int)
    requires 0 <= i <= j <= |s|
    ensures ToLower(s[i..j]) == ToLower(s)[i..j]
  {
  }

  /** Lower-casing does not move the trimmed boundaries. */
  lemma {:induction false} TrimToLower(s: string)
    ensures Trim(ToLower(s)) == ToLower(Trim(s))
  {
    TrimStartToLower(s);
    TrimEndToLower(TrimStart(s));
  }

  lemma {:induction false} TrimStartToLower(s: string)
    ensures TrimStart(ToLower(s)) == ToLower(TrimStart(s))
    decreases |s|
  {
    if s != [] {
      LowerCharSpace(s[0]);
      ToLowerSlice(s, 1, |s|);
      if IsSpace(s[0]) {
        TrimStartToLower(s[1..]);
      }
    }
  }

  lemma {:induction false} TrimEndToLower(s: string)
    ensures TrimEnd(ToLower(s)) == ToLower(TrimEnd(s))
    decreases |s|
  {
    if s != [] {
      LowerCharSpace(s[|s| - 1]);
      ToLowerSlice(s, 0, |s| - 1);
      if IsSpace(s[|s| - 1]) {
        TrimEndToLower(s[..|s| - 1]);
      }
    }
  }

  predicate AllSpace(s: string)
  {
    forall c <- s :: IsSpace(c)
  }

  lemma {:induction false} TrimStartSpacePrefix(p: string, s: string)
    requires AllSpace(p)
    ensures TrimStart(p + s) == TrimStart(s)
    decreases |p|
  {
    if p != [] {
      assert p[0] in p;
      assert (p + s)[0] == p[0];
      assert (p + s)[1..] == p[1..] + s;
      assert TrimStart(p + s) == TrimStart(p[1..] + s);
      TrimStartSpacePrefix(p[1..], s);
    } else {
      assert p + s == s;
    }
  }

  lemma {:induction false} TrimEndSpaceSuffix(s: string, q: string)
    requires AllSpace(q)
    ensures TrimEnd(s + q) == TrimEnd(s)
    decreases |q|
  {
    if q != [] {
      assert q[|q| - 1] in q;
      var sq := s + q;
      assert sq[..|sq| - 1] == s + q[..|q| - 1];
      TrimEndSpaceSuffix(s, q[..|q| - 1]);
    } else {
      assert s + q == s;
    }
  }

  lemma {:induction false} TrimStartAppend(s: string, q: string)
    ensures TrimStart(s + q) == if TrimStart(s) == [] then TrimStart(q) else TrimStart(s) + q
    decreases |s|
  {
    if s == [] {
      assert s + q == q;
    } else {
      assert (s + q)[0] == s[0];
      assert (s + q)[1..] == s[1..] + q;
      if IsSpace(s[0]) {
        TrimStartAppend(s[1..], q);
      }
    }
  }

  /** `trim` ignores white space added on either side. */
  lemma TrimPadding(p: string, s: string, q: string)
    requires AllSpace(p) && AllSpace(q)
    ensures Trim(p + s + q) == Trim(s)
  {
    assert p + s + q == p + (s + q);
    TrimStartSpacePrefix(p, s + q);
    TrimStartAppend(s, q);
    if TrimStart(s) != [] {
      TrimEndSpaceSuffix(TrimStart(s), q);
    } else {
      TrimStartSpacePrefix(q, []);
      assert q + [] == q;
    }
  }
}
