/**
  The PHP string built-ins that the router relies on (strpos, trim, explode,
  ucfirst, str_replace) and PHP's truthiness of a string. Strings are
  sequences of characters; bytes beyond ASCII play no role in these rules.
 */
module PhpString {
  import opened Options

  /** `if ($s)`: a string is falsy exactly when it is "" or "0". */
  predicate Truthy(s: string)
    ensures |s| == 0 ==> !Truthy(s)
    ensures !Truthy(s) ==> |s| <= 1
    ensures |s| == 1 ==> (Truthy(s) <==> s[0] != '0')
  {
    s != "" && s != "0"
  }

  /** strpos($s, c): the index of the first occurrence of c, or None for PHP's false. */
  function StrPos(s: string, c: char): (r: Option<nat>)
    ensures r.None? <==> c !in s
    ensures r.Some? ==> r.value < |s| && s[r.value] == c
    ensures r.Some? ==> forall k | 0 <= k < r.value :: s[k] != c
  {
    if |s| == 0 then None
    else if s[0] == c then Some(0)
    else
      match StrPos(s[1..], c)
      case None => None
      case Some(i) => Some(i + 1)
  }

  /** ltrim($s, c): the suffix of s left after every leading c is removed. */
  function TrimLeft(s: string, c: char): (r: string)
    ensures |r| <= |s| && r == s[|s| - |r|..]
    ensures forall k | 0 <= k < |s| - |r| :: s[k] == c
    ensures r == [] || r[0] != c
  {
    if |s| > 0 && s[0] == c then TrimLeft(s[1..], c) else s
  }

  /** rtrim($s, c): the prefix of s left after every trailing c is removed. */
  function TrimRight(s: string, c: char): (r: string)
    ensures |r| <= |s| && r == s[..|r|]
    ensures forall k | |r| <= k < |s| :: s[k] == c
    ensures r == [] || r[|r| - 1] != c
  {
    if |s| > 0 && s[|s| - 1] == c then TrimRight(s[..|s| - 1], c) else s
  }

  /** r sits in s at offset i, with only c before and after it. */
  predicate Window(s: string, c: char, i: int, r: string) {
    && 0 <= i <= |s| - |r|
    && r == s[i..i + |r|]
    && (forall k | 0 <= k < i :: s[k] == c)
    && (forall k | i + |r| <= k < |s| :: s[k] == c)
  }

  /** r is a window of s with only c on either side of it. */
  predicate IsTrimmedWindow(s: string, c: char, r: string) {
    exists i | 0 <= i <= |s| :: Window(s, c, i, r)
  }

  /** trim($s, c) with a one-character list: leading and trailing c removed. */
  function Trim(s: string, c: char): (r: string)
    ensures |r| <= |s|
    ensures IsTrimmedWindow(s, c, r)
    ensures r == [] || (r[0] != c && r[|r| - 1] != c)
  {
    TrimWindow(s, c);
    TrimRight(TrimLeft(s, c), c)
  }

  /** The two trims leave a window of s with only c on either side of it. */
  lemma TrimWindow(s: string, c: char)
    ensures Window(s, c, |s| - |TrimLeft(s, c)|, TrimRight(TrimLeft(s, c), c))
  {
    TrimSlice(s, c);
    TrimTail(s, c);
  }

  /** The trimmed string is the slice of s after the leading run of c. */
  lemma TrimSlice(s: string, c: char)
    ensures var l := TrimLeft(s, c);
            TrimRight(l, c) == s[|s| - |l|..|s| - |l| + |TrimRight(l, c)|]
  {
    var l := TrimLeft(s, c);
    SliceOfSuffix(s, |s| - |l|, |TrimRight(l, c)|);
  }

  /** A prefix of a suffix is a slice. */
  lemma SliceOfSuffix(s: string, i: nat, m: nat)
    requires i + m <= |s|
    ensures s[i..][..m] == s[i..i + m]
  {
  }

  /** Everything in s after the trimmed string is c. */
  lemma TrimTail(s: string, c: char)
    ensures var l := TrimLeft(s, c);
            forall k | |s| - |l| + |TrimRight(l, c)| <= k < |s| :: s[k] == c
  {
    var l := TrimLeft(s, c);
    var r := TrimRight(l, c);
    var i := |s| - |l|;
    forall k | i + |r| <= k < |s|
      ensures s[k] == c
    {
      assert s[k] == l[k - i];
    }
  }

  /** Trimming adds no character: one absent from s is absent from the result. */
  lemma TrimKeepsOut(s: string, c: char, x: char)
    requires x !in s
    ensures x !in Trim(s, c)
  {
    var l := TrimLeft(s, c);
    var r := TrimRight(l, c);
    forall k | 0 <= k < |r|
      ensures r[k] != x
    {
      assert r[k] == l[k] == s[|s| - |l| + k];
    }
  }

  /** implode($sep, $parts): the pieces joined with sep between neighbours. */
  function Implode(parts: seq<string>, sep: char): string
  {
    if |parts| == 0 then ""
    else if |parts| == 1 then parts[0]
    else parts[0] + [sep] + Implode(parts[1..], sep)
  }

  /**
    explode($sep, $s) for a one-character separator: the text before the
    first sep, then the pieces of the text after it; a string without sep is
    its own only piece (so explode of "" is [""]).
   */
  function Explode(s: string, sep: char): (r: seq<string>)
    ensures |r| >= 1
    ensures forall i | 0 <= i < |r| :: sep !in r[i]
    decreases |s|
  {
    match StrPos(s, sep)
    case None => [s]
    case Some(i) =>
      var rest := Explode(s[i + 1..], sep);
      assert ([s[..i]] + rest)[1..] == rest;
      [s[..i]] + rest
  }

  /** implode undoes explode: joining the pieces gives back the string. */
  lemma {:induction false} ImplodeExplode(s: string, sep: char)
    ensures Implode(Explode(s, sep), sep) == s
    decreases |s|
  {
    match StrPos(s, sep)
    case None =>
    case Some(i) =>
      ImplodeExplode(s[i + 1..], sep);
      var rest := Explode(s[i + 1..], sep);
      assert ([s[..i]] + rest)[1..] == rest;
      assert s == s[..i] + [sep] + s[i + 1..];
  }

  /** An ASCII lower-case letter, the only characters ucfirst changes. */
  predicate IsLowerAscii(c: char) {
    'a' <= c <= 'z'
  }

  /** strtoupper of one character, locale-independent: only a-z change. */
  function UpperAscii(c: char): (u: char)
    ensures !IsLowerAscii(u)
    ensures IsLowerAscii(c) ==> u as int == c as int - 32
    ensures !IsLowerAscii(c) ==> u == c
  {
    if IsLowerAscii(c) then (c as int - 32) as char else c
  }

  /** ucfirst($s): only the first character is upper-cased; the rest is untouched. */
  function UcFirst(s: string): (r: string)
    ensures |r| == |s|
    ensures forall k | 1 <= k < |s| :: r[k] == s[k]
    ensures |s| > 0 ==> !IsLowerAscii(r[0])
    ensures |s| > 0 && IsLowerAscii(s[0]) ==> r[0] as int == s[0] as int - 32
    ensures |s| > 0 && !IsLowerAscii(s[0]) ==> r == s
  {
    if |s| == 0 then s else [UpperAscii(s[0])] + s[1..]
  }

  /** ucfirst is idempotent: a string it has already capitalised is left as it is. */
  lemma UcFirstIdempotent(s: string)
    ensures UcFirst(UcFirst(s)) == UcFirst(s)
  {
  }

  /** lcfirst of one character: only A-Z change, to their lower-case letters. */
  function LowerAscii(c: char): (l: char)
    ensures 'A' <= c <= 'Z' ==> IsLowerAscii(l) && l as int == c as int + 32
    ensures !('A' <= c <= 'Z') ==> l == c
  {
    if 'A' <= c <= 'Z' then (c as int + 32) as char else c
  }

  /** Lower-casing the first character back undoes ucfirst on a string that starts with a-z. */
  lemma UcFirstUndone(s: string)
    requires |s| > 0 && IsLowerAscii(s[0])
    ensures [LowerAscii(UcFirst(s)[0])] + UcFirst(s)[1..] == s
  {
  }

  /** str_replace(from, to, $s) for single characters. */
  function ReplaceChar(s: string, from: char, to: char): (r: string)
    ensures |r| == |s|
    ensures forall k | 0 <= k < |s| :: r[k] == (if s[k] == from then to else s[k])
  {
    if |s| == 0 then "" else [if s[0] == from then to else s[0]] + ReplaceChar(s[1..], from, to)
  }

  /** A leading c is trimmed away. */
  lemma TrimLeading(s: string, c: char)
    ensures Trim([c] + s, c) == Trim(s, c)
  {
    assert ([c] + s)[1..] == s;
  }

  /** Appending x to s appends it to the left trim, unless everything before it was trimmed away. */
  lemma {:induction false} TrimLeftSnoc(s: string, c: char, x: char)
    ensures TrimLeft(s + [x], c) ==
      if TrimLeft(s, c) == [] then TrimLeft([x], c) else TrimLeft(s, c) + [x]
  {
    if |s| > 0 {
      assert (s + [x])[1..] == s[1..] + [x];
      TrimLeftSnoc(s[1..], c, x);
    } else {
      assert s + [x] == [x];
    }
  }

  /** A trailing c is trimmed away. */
  lemma TrimTrailing(s: string, c: char)
    ensures Trim(s + [c], c) == Trim(s, c)
  {
    TrimLeftSnoc(s, c, c);
    var l := TrimLeft(s, c);
    if l == [] {
      assert TrimLeft([c], c) == [];
    } else {
      TrimRightSnoc(l, c);
    }
  }

  /** A trailing c of the left-trimmed string is trimmed away on the right. */
  lemma TrimRightSnoc(l: string, c: char)
    ensures TrimRight(l + [c], c) == TrimRight(l, c)
  {
    assert (l + [c])[..|l|] == l;
  }

  /** A string that neither starts nor ends with c is left as it is, so trimming is idempotent. */
  lemma TrimFixed(s: string, c: char)
    requires s == [] || (s[0] != c && s[|s| - 1] != c)
    ensures Trim(s, c) == s
  {
  }

  /** A string made only of c trims to "". */
  lemma TrimOnlySeparator(s: string, c: char)
    requires forall k | 0 <= k < |s| :: s[k] == c
    ensures Trim(s, c) == ""
  {
  }

  /** A string without sep explodes into itself alone. */
  lemma ExplodeNoSeparator(s: string, sep: char)
    requires sep !in s
    ensures Explode(s, sep) == [s]
  {
  }

  /** strpos only looks as far as the first occurrence: text appended after it changes nothing. */
  lemma {:induction false} StrPosAppend(u: string, w: string, c: char)
    requires c in u
    ensures StrPos(u + w, c) == StrPos(u, c)
  {
    assert (u + w)[0] == u[0];
    if u[0] != c {
      assert u == [u[0]] + u[1..];
      assert c in u[1..];
      assert (u + w)[1..] == u[1..] + w;
      StrPosAppend(u[1..], w, c);
    }
  }

  /** strpos past a different first character: the index moves by one. */
  lemma StrPosPrepend(x: char, u: string, c: char)
    requires x != c
    ensures StrPos([x] + u, c) == match StrPos(u, c) case None => None case Some(i) => Some(i + 1)
  {
    assert ([x] + u)[1..] == u;
  }

  /** In x + sep + y with no sep in x, the first sep sits right after x. */
  lemma StrPosAfter(x: string, y: string, c: char)
    requires c !in x
    ensures StrPos(x + [c] + y, c) == Some(|x|)
  {
    var s := x + [c] + y;
    assert s[|x|] == c;
    assert forall k | 0 <= k < |x| :: s[k] == x[k];
  }

  /** The first piece is everything before the first separator. */
  lemma ExplodeSplit(x: string, y: string, sep: char)
    requires sep !in x
    ensures Explode(x + [sep] + y, sep) == [x] + Explode(y, sep)
  {
    var s := x + [sep] + y;
    StrPosAfter(x, y, sep);
    assert s[..|x|] == x && s[|x| + 1..] == y;
  }

  /** Exploding at one separator splits the result in two. */
  lemma {:induction false} ExplodeConcat(x: string, y: string, sep: char)
    ensures Explode(x + [sep] + y, sep) == Explode(x, sep) + Explode(y, sep)
    decreases |x|
  {
    match StrPos(x, sep)
    case None =>
      ExplodeSplit(x, y, sep);
    case Some(i) =>
      var x1, x2 := x[..i], x[i + 1..];
      var t := x2 + [sep] + y;
      assert x == x1 + [sep] + x2;
      assert x + [sep] + y == x1 + [sep] + t;
      ExplodeConcat(x2, y, sep);
      ExplodeConcatStep(x1, x2, y, t, sep);
  }

  /** The inductive step of ExplodeConcat: one more separator-free piece x1 in front of t = x2 + sep + y. */
  lemma ExplodeConcatStep(x1: string, x2: string, y: string, t: string, sep: char)
    requires sep !in x1
    requires Explode(t, sep) == Explode(x2, sep) + Explode(y, sep)
    ensures Explode(x1 + [sep] + t, sep) == Explode(x1 + [sep] + x2, sep) + Explode(y, sep)
  {
    ExplodeSplit(x1, t, sep);
    ExplodeSplit(x1, x2, sep);
    ConsAppend(x1, Explode(x2, sep), Explode(y, sep));
  }

  /**
    Putting an element in front commutes with concatenation. Stated on its own
    so that ExplodeConcatStep needs no reasoning about sequence shapes next to
    the unfoldings of Explode.
   */
  lemma ConsAppend<T>(a: T, b: seq<T>, c: seq<T>)
    ensures [a] + (b + c) == [a] + b + c
  {
  }

  /** explode undoes implode when no piece holds the separator. */
  lemma {:induction false} ExplodeImplode(parts: seq<string>, sep: char)
    requires |parts| >= 1
    requires forall i | 0 <= i < |parts| :: sep !in parts[i]
    ensures Explode(Implode(parts, sep), sep) == parts
  {
    if |parts| == 1 {
      ExplodeNoSeparator(parts[0], sep);
    } else {
      ExplodeImplode(parts[1..], sep);
      ExplodeImplodeStep(parts, sep);
    }
  }

  /** The inductive step of ExplodeImplode: the first part is split off at the first separator. */
  lemma ExplodeImplodeStep(parts: seq<string>, sep: char)
    requires |parts| >= 2 && sep !in parts[0]
    requires Explode(Implode(parts[1..], sep), sep) == parts[1..]
    ensures Explode(Implode(parts, sep), sep) == parts
  {
    var t := Implode(parts[1..], sep);
    assert Implode(parts, sep) == parts[0] + [sep] + t;
    ExplodeSplit(parts[0], t, sep);
    assert [parts[0]] + parts[1..] == parts;
  }

  /** Three separator-free pieces joined by sep explode back into those three. */
  lemma ExplodeThree(a: string, b: string, c: string, sep: char)
    requires sep !in a && sep !in b && sep !in c
    ensures Explode(a + [sep] + (b + [sep] + c), sep) == [a, b, c]
  {
    ExplodeNoSeparator(c, sep);
    ExplodeSplit(b, c, sep);
    ExplodeSplit(a, b + [sep] + c, sep);
  }

  /** The first piece of a string not starting with sep is not empty, and it is "0" only for "0" or "0" + sep + .... */
  lemma FirstPiece(s: string, sep: char)
    requires |s| > 0 && s[0] != sep && sep != '0'
    ensures Explode(s, sep)[0] != ""
    ensures Explode(s, sep)[0] == "0" <==> s == "0" || (|s| >= 2 && s[0] == '0' && s[1] == sep)
  {
    match StrPos(s, sep)
    case None =>
    case Some(i) =>
      assert Explode(s, sep)[0] == s[..i];
      if |s| >= 2 && s[1] == sep {
        assert i == 1;
      }
  }

  /** str_replace of single characters distributes over concatenation. */
  lemma ReplaceCharConcat(x: string, y: string, from: char, to: char)
    ensures ReplaceChar(x + y, from, to) == ReplaceChar(x, from, to) + ReplaceChar(y, from, to)
  {
  }

  /** A string without the replaced character is left as it is. */
  lemma ReplaceCharAbsent(s: string, from: char, to: char)
    requires from !in s
    ensures ReplaceChar(s, from, to) == s
  {
  }

  /** In a + from + b + from, with from only at those two places, both become to. */
  lemma ReplaceSeparators(a: string, b: string, from: char, to: char)
    requires from !in a && from !in b
    ensures ReplaceChar(a + [from] + b + [from], from, to) == a + [to] + b + [to]
  {
    var s, t := a + [from] + b + [from], a + [to] + b + [to];
    var r := ReplaceChar(s, from, to);
    forall k | 0 <= k < |s|
      ensures r[k] == t[k]
    {
      if k < |a| {
        assert s[k] == a[k] && t[k] == a[k];
      } else if |a| < k < |a| + 1 + |b| {
        assert s[k] == b[k - |a| - 1] && t[k] == b[k - |a| - 1];
      }
    }
  }

  /** Replacing back undoes a replacement when the target character did not occur. */
  lemma ReplaceCharInverse(s: string, from: char, to: char)
    requires to !in s
    ensures ReplaceChar(ReplaceChar(s, from, to), to, from) == s
  {
  }
}
