/**
 * The PHP string builtins the request parser relies on: `explode`,
 * `str_contains`, `trim` and `strtoupper`. A PHP string is a byte string;
 * here it is a `string` whose characters stand for bytes.
 */
module PhpString {
  import opened Wrappers

  // ---------------------------------------------------------------------
  // Occurrences of a separator
  // ---------------------------------------------------------------------

  /** `sep` occurs in `s` starting at position `j`. */
  predicate OccursAt(s: string, sep: string, j: nat)
  {
    j + |sep| <= |s| && s[j..j + |sep|] == sep
  }

  /** `i` is the position of the first occurrence of `sep` in `s`. */
  predicate IsFirst(s: string, sep: string, i: nat)
  {
    OccursAt(s, sep, i) && forall j: nat :: j < i ==> !OccursAt(s, sep, j)
  }

  /** The position of the first occurrence of `sep` in `s`, if any. */
  function Find(s: string, sep: string): (r: Option<nat>)
    requires |sep| > 0
    ensures r.Some? ==> IsFirst(s, sep, r.value)
    ensures r.None? ==> forall j: nat :: !OccursAt(s, sep, j)
    decreases |s|
  {
    if |s| < |sep| then None
    else if s[..|sep|] == sep then Some(0)
    else
      var r' := Find(s[1..], sep);
      FindShift(s, sep, r');
      if r'.None? then None else Some(r'.value + 1)
  }

  /** An occurrence at `j + 1` in `s` is an occurrence at `j` in `s[1..]`. */
  lemma OccursShift(s: string, sep: string, j: nat)
    requires |s| > 0
    ensures OccursAt(s, sep, j + 1) <==> OccursAt(s[1..], sep, j)
  {
    if j + 1 + |sep| <= |s| {
      assert s[j + 1..j + 1 + |sep|] == s[1..][j..j + |sep|];
    }
  }

  /** The search in `s[1..]` gives the search in `s` when `sep` does not start `s`. */
  lemma FindShift(s: string, sep: string, r': Option<nat>)
    requires |sep| > 0 && |s| >= |sep| && s[..|sep|] != sep
    requires r'.Some? ==> IsFirst(s[1..], sep, r'.value)
    requires r'.None? ==> forall j: nat :: !OccursAt(s[1..], sep, j)
    ensures r'.Some? ==> IsFirst(s, sep, r'.value + 1)
    ensures r'.None? ==> forall j: nat :: !OccursAt(s, sep, j)
  {
    assert !OccursAt(s, sep, 0);
    if r'.Some? {
      OccursShift(s, sep, r'.value);
      forall j: nat | 0 < j < r'.value + 1 ensures !OccursAt(s, sep, j) {
        OccursShift(s, sep, j - 1);
      }
    } else {
      forall j: nat | 0 < j ensures !OccursAt(s, sep, j) {
        OccursShift(s, sep, j - 1);
      }
    }
  }

  /** A first occurrence stays first when text is appended. */
  lemma IsFirstExtend(s: string, t: string, sep: string, i: nat)
    requires IsFirst(s, sep, i)
    ensures IsFirst(s + t, sep, i)
  {
    assert (s + t)[i..i + |sep|] == s[i..i + |sep|];
    forall j: nat | j < i ensures !OccursAt(s + t, sep, j) {
      assert !OccursAt(s, sep, j);
      assert (s + t)[j..j + |sep|] == s[j..j + |sep|];
    }
  }

  /** The first occurrence is unique: whatever position is first, Find returns it. */
  lemma FindIsFirst(s: string, sep: string, i: nat)
    requires |sep| > 0 && IsFirst(s, sep, i)
    ensures Find(s, sep) == Some(i)
  {
  }

  /** PHP `str_contains(s, sep)` for a non-empty needle. */
  predicate Contains(s: string, sep: string)
    requires |sep| > 0
    ensures Contains(s, sep) <==> exists j: nat :: OccursAt(s, sep, j)
  {
    Find(s, sep).Some?
  }

  /** For a one-character needle, containment is membership. */
  lemma ContainsChar(s: string, c: char)
    ensures Contains(s, [c]) <==> c in s
  {
    if c in s {
      var j :| 0 <= j < |s| && s[j] == c;
      assert OccursAt(s, [c], j);
    }
    if Contains(s, [c]) {
      var k := Find(s, [c]).value;
      assert s[k..k + 1] == [c];
      assert s[k] == c;
    }
  }

  /** A one-character needle first occurs at the first index holding it. */
  lemma FirstChar(s: string, c: char, i: nat)
    requires i < |s| && s[i] == c && c !in s[..i]
    ensures IsFirst(s, [c], i)
  {
    assert s[i..i + 1] == [c];
    forall j: nat | j < i ensures !OccursAt(s, [c], j) {
      assert s[..i][j] == s[j];
      assert s[j..j + 1] == [s[j]];
    }
  }

  /** For a one-character needle, the first occurrence is the first index holding it. */
  lemma IsFirstChar(s: string, c: char, i: nat)
    ensures IsFirst(s, [c], i) <==> (i < |s| && s[i] == c && c !in s[..i])
  {
    if i < |s| && s[i] == c && c !in s[..i] {
      FirstChar(s, c, i);
    }
    if IsFirst(s, [c], i) {
      assert s[i..i + 1] == [c];
      forall k | 0 <= k < i ensures s[..i][k] != c {
        assert !OccursAt(s, [c], k);
        assert s[k..k + 1] == [s[k]];
      }
    }
  }

  /** The text before the first occurrence holds no occurrence. */
  lemma PrefixFree(s: string, sep: string, i: nat)
    requires |sep| > 0 && i <= |s|
    requires forall j: nat :: j < i ==> !OccursAt(s, sep, j)
    ensures !Contains(s[..i], sep)
  {
    if Contains(s[..i], sep) {
      var j := Find(s[..i], sep).value;
      assert s[..i][j..j + |sep|] == s[j..j + |sep|];
      assert OccursAt(s, sep, j);
      assert false;
    }
  }

  // ---------------------------------------------------------------------
  // explode / implode
  // ---------------------------------------------------------------------

  /**
   * PHP `explode(sep, s)`: the pieces of `s` between the non-overlapping
   * occurrences of `sep`, scanned from the left. There is always at least
   * one piece; without an occurrence the only piece is `s` itself.
   */
  function Explode(sep: string, s: string): (parts: seq<string>)
    requires |sep| > 0
    ensures |parts| >= 1
    decreases |s|
  {
    match Find(s, sep)
    case None => [s]
    case Some(i) => [s[..i]] + Explode(sep, s[i + |sep|..])
  }

  /**
   * The first piece of an explode is the text before the first occurrence
   * of the separator, and there is a second piece exactly when there is an
   * occurrence.
   */
  lemma ExplodeHead(sep: string, s: string)
    requires |sep| > 0
    ensures var parts := Explode(sep, s);
      && |parts[0]| <= |s| && parts[0] == s[..|parts[0]|]
      && (|parts| == 1 <==> !Contains(s, sep))
      && (|parts| == 1 ==> parts[0] == s)
      && (|parts| > 1 ==> IsFirst(s, sep, |parts[0]|))
  {
  }

  /** PHP `implode(sep, parts)`: the pieces joined with `sep` between them. */
  function Implode(sep: string, parts: seq<string>): string
    decreases |parts|
  {
    if |parts| == 0 then ""
    else if |parts| == 1 then parts[0]
    else parts[0] + sep + Implode(sep, parts[1..])
  }

  /** Exploding at the first occurrence at `i` splits off `s[..i]`. */
  lemma ExplodeAt(sep: string, s: string, i: nat)
    requires |sep| > 0 && IsFirst(s, sep, i)
    ensures Explode(sep, s) == [s[..i]] + Explode(sep, s[i + |sep|..])
  {
    FindIsFirst(s, sep, i);
  }

  /** Round trip: joining the pieces with the separator rebuilds the string. */
  lemma {:induction false} ImplodeExplode(sep: string, s: string)
    requires |sep| > 0
    ensures Implode(sep, Explode(sep, s)) == s
    decreases |s|
  {
    match Find(s, sep)
    case None =>
    case Some(i) =>
      var rest := s[i + |sep|..];
      ImplodeExplode(sep, rest);
      ExplodeAt(sep, s, i);
      ImplodeCons(sep, s[..i], Explode(sep, rest));
      SplitAtFirst(s, sep, i);
  }

  /** Joining a piece in front of at least one more piece. */
  lemma ImplodeCons(sep: string, head: string, tail: seq<string>)
    requires |tail| >= 1
    ensures Implode(sep, [head] + tail) == head + sep + Implode(sep, tail)
  {
    assert ([head] + tail)[1..] == tail;
  }

  /** A string is the text before an occurrence of `sep`, `sep`, and the text after it. */
  lemma SplitAtFirst(s: string, sep: string, i: nat)
    requires OccursAt(s, sep, i)
    ensures s == s[..i] + sep + s[i + |sep|..]
  {
    assert s == s[..i] + s[i..i + |sep|] + s[i + |sep|..];
  }

  /** No piece of an explode contains the separator. */
  lemma {:induction false} ExplodePiecesFree(sep: string, s: string)
    requires |sep| > 0
    ensures forall k :: 0 <= k < |Explode(sep, s)| ==> !Contains(Explode(sep, s)[k], sep)
    decreases |s|
  {
    match Find(s, sep)
    case None =>
    case Some(i) =>
      var rest := s[i + |sep|..];
      ExplodePiecesFree(sep, rest);
      var head := s[..i];
      if Contains(head, sep) {
        var j := Find(head, sep).value;
        assert head[j..j + |sep|] == s[j..j + |sep|];
        assert OccursAt(s, sep, j);
      }
      var parts := Explode(sep, s);
      assert parts == [head] + Explode(sep, rest);
      forall k | 0 <= k < |parts| ensures !Contains(parts[k], sep) {
        if k > 0 { assert parts[k] == Explode(sep, rest)[k - 1]; }
      }
  }

  /**
   * Exploding on a one-character separator distributes over a join at an
   * occurrence whose right-hand part holds no separator.
   */
  lemma {:induction false} ExplodeCharSnoc(c: char, a: string, b: string)
    requires c !in b
    ensures Explode([c], a + [c] + b) == Explode([c], a) + [b]
    decreases |a|
  {
    ContainsChar(a, c);
    ContainsChar(b, c);
    if c !in a {
      ExplodeCharCons(c, a, b);
    } else {
      var i := Find(a, [c]).value;
      var s := a + [c] + b;
      Assoc(a, [c], b);
      var a' := a[i + 1..];
      IsFirstExtend(a, [c] + b, [c], i);
      Slices(a, [c] + b, i);
      var rest := s[i + 1..];
      assert rest == a' + [c] + b;
      ExplodeCharSnoc(c, a', b);
      var e := Explode([c], a');
      ExplodeAt([c], a, i);
      ExplodeAt([c], s, i);
      assert Explode([c], s) == [a[..i]] + (e + [b]);
      Assoc([a[..i]], e, [b]);
    }
  }

  /** Concatenation is associative. */
  lemma Assoc<T>(x: seq<T>, y: seq<T>, z: seq<T>)
    ensures x + y + z == x + (y + z)
  {
  }

  /** Slicing a concatenation inside its left operand. */
  lemma Slices(a: string, t: string, i: nat)
    requires i < |a|
    ensures (a + t)[..i] == a[..i] && (a + t)[i + 1..] == a[i + 1..] + t
  {
  }

  /** A one-character separator first found at `|a|` splits `a + [c] + b` into `a` and the pieces of `b`. */
  lemma ExplodeCharCons(c: char, a: string, b: string)
    requires c !in a
    ensures Explode([c], a + [c] + b) == [a] + Explode([c], b)
  {
    var s := a + [c] + b;
    assert s[..|a|] == a;
    FirstChar(s, c, |a|);
    ExplodeAt([c], s, |a|);
    assert s[|a| + 1..] == b;
  }

  /** A string without the first character of `sep` does not contain `sep`. */
  lemma ContainsHead(s: string, sep: string)
    requires |sep| > 0 && sep[0] !in s
    ensures !Contains(s, sep)
  {
  }

  /**
   * A two-character separator of distinct characters first occurs right
   * after a prefix that does not contain it.
   */
  lemma PairFirst(a: string, sep: string, b: string)
    requires |sep| == 2 && sep[0] != sep[1] && !Contains(a, sep)
    ensures IsFirst(a + sep + b, sep, |a|)
  {
    var s := a + sep + b;
    assert s[|a|..|a| + 2] == sep;
    forall j: nat | j < |a| ensures !OccursAt(s, sep, j) {
      if j + 2 <= |a| {
        assert !OccursAt(a, sep, j);
        assert s[j..j + 2] == a[j..j + 2];
      } else {
        assert s[j + 1] == sep[0];
        assert s[j..j + 2][1] == s[j + 1];
      }
    }
  }

  /**
   * PHP `list($a, $b) = explode(sep, s)` when `str_contains(s, sep)`: the
   * text before the first occurrence and the text between the first and the
   * second occurrence (or the end). Without an occurrence there is nothing.
   */
  function ExplodeTwo(sep: string, s: string): (r: Option<(string, string)>)
    requires |sep| > 0
    ensures r.Some? <==> Contains(s, sep)
    ensures r.Some? ==> FirstTwoPieces(sep, s, r.value.0, r.value.1)
  {
    if Contains(s, sep) then
      var parts := Explode(sep, s);
      ExplodeFirstTwo(sep, s);
      Some((parts[0], parts[1]))
    else
      None
  }

  /**
   * `a` is the text of `s` before the first occurrence of `sep`, and `b`
   * the text between the first and the second occurrence (or the end);
   * neither contains `sep`.
   */
  predicate FirstTwoPieces(sep: string, s: string, a: string, b: string)
    requires |sep| > 0
  {
    && IsFirst(s, sep, |a|) && a == s[..|a|]
    && var rest := s[|a| + |sep|..];
    && |b| <= |rest| && b == rest[..|b|]
    && (IsFirst(rest, sep, |b|) || (b == rest && !Contains(rest, sep)))
    && !Contains(a, sep) && !Contains(b, sep)
  }

  /** When `s` contains `sep`, its explode has at least two pieces, and the first two are as described. */
  lemma ExplodeFirstTwo(sep: string, s: string)
    requires |sep| > 0 && Contains(s, sep)
    ensures var parts := Explode(sep, s);
      |parts| >= 2 && FirstTwoPieces(sep, s, parts[0], parts[1])
  {
    var parts := Explode(sep, s);
    ExplodeHead(sep, s);
    var i := |parts[0]|;
    ExplodeAt(sep, s, i);
    var rest := s[i + |sep|..];
    assert parts[1..] == Explode(sep, rest);
    ExplodeHead(sep, rest);
    PrefixFree(s, sep, i);
    if Contains(rest, sep) {
      PrefixFree(rest, sep, |parts[1]|);
    }
  }

  /** `a + sep + b` whose first occurrence of `sep` is at `|a|` and whose `b` holds none gives back `a` and `b`. */
  lemma ExplodeTwoJoin(sep: string, a: string, b: string)
    requires |sep| > 0
    requires IsFirst(a + sep + b, sep, |a|) && !Contains(b, sep)
    ensures ExplodeTwo(sep, a + sep + b) == Some((a, b))
  {
    var s := a + sep + b;
    FindIsFirst(s, sep, |a|);
    assert s[..|a|] == a;
    assert s[|a| + |sep|..] == b;
  }

  /**
   * `a + sep + b + sep + c` whose first two occurrences of `sep` are the
   * two written ones gives back `a` and `b`: `c` is lost.
   */
  lemma ExplodeTwoOfThree(sep: string, a: string, b: string, c: string)
    requires |sep| > 0
    requires IsFirst(a + sep + (b + sep + c), sep, |a|) && IsFirst(b + sep + c, sep, |b|)
    ensures ExplodeTwo(sep, a + sep + (b + sep + c)) == Some((a, b))
  {
    var tail := b + sep + c;
    var s := a + sep + tail;
    assert s[..|a|] == a && s[|a| + |sep|..] == tail;
    assert tail[..|b|] == b;
    ExplodeTwoAt(sep, s, |a|, |b|);
  }

  /**
   * For a two-character separator whose characters differ, `a sep b sep c`
   * with `a` and `b` free of `sep` gives back `a` and `b`.
   */
  lemma ExplodeTwoOfPairs(sep: string, a: string, b: string, c: string)
    requires |sep| == 2 && sep[0] != sep[1]
    requires !Contains(a, sep) && !Contains(b, sep)
    ensures ExplodeTwo(sep, a + sep + (b + sep + c)) == Some((a, b))
  {
    PairFirst(a, sep, b + sep + c);
    PairFirst(b, sep, c);
    ExplodeTwoOfThree(sep, a, b, c);
  }

  /** The two pieces `ExplodeTwo` gives when the first two occurrences of `sep` are known. */
  lemma ExplodeTwoAt(sep: string, s: string, i: nat, j: nat)
    requires |sep| > 0 && IsFirst(s, sep, i) && IsFirst(s[i + |sep|..], sep, j)
    ensures ExplodeTwo(sep, s) == Some((s[..i], s[i + |sep|..][..j]))
  {
    var tail := s[i + |sep|..];
    FindIsFirst(s, sep, i);
    ExplodeAt(sep, s, i);
    ExplodeAt(sep, tail, j);
  }

  // ---------------------------------------------------------------------
  // trim
  // ---------------------------------------------------------------------

  /** The characters PHP `trim` strips by default: " \t\n\r\0\x0B". */
  predicate IsTrimChar(c: char)
    ensures IsTrimChar(c) ==> c as int <= ' ' as int
  {
    c == ' ' || c == '\t' || c == '\n' || c == '\r' || c == 0 as char || c == 11 as char
  }

  /** `s` without its leading trim characters. */
  function TrimLeft(s: string): (r: string)
    ensures |r| <= |s| && r == s[|s| - |r|..]
    ensures forall i :: 0 <= i < |s| - |r| ==> IsTrimChar(s[i])
    ensures r == [] || !IsTrimChar(r[0])
    decreases |s|
  {
    if s != [] && IsTrimChar(s[0]) then TrimLeft(s[1..]) else s
  }

  /** `s` without its trailing trim characters. */
  function TrimRight(s: string): (r: string)
    ensures |r| <= |s| && r == s[..|r|]
    ensures forall i :: |r| <= i < |s| ==> IsTrimChar(s[i])
    ensures r == [] || !IsTrimChar(r[|r| - 1])
    decreases |s|
  {
    if s != [] && IsTrimChar(s[|s| - 1]) then TrimRight(s[..|s| - 1]) else s
  }

  /** `r` is `s[k..]` cut to length `|r|`, and everything of `s` around it is a trim character. */
  predicate TrimmedAt(s: string, r: string, k: nat)
  {
    && k + |r| <= |s| && r == s[k..k + |r|]
    && (forall i :: 0 <= i < k ==> IsTrimChar(s[i]))
    && (forall i :: k + |r| <= i < |s| ==> IsTrimChar(s[i]))
  }

  /** PHP `trim(s)`: `s` without trim characters at either end. */
  function Trim(s: string): (r: string)
    ensures r == [] || (!IsTrimChar(r[0]) && !IsTrimChar(r[|r| - 1]))
    ensures exists k: nat :: TrimmedAt(s, r, k)
  {
    var l := TrimLeft(s);
    var r := TrimRight(l);
    assert TrimmedAt(s, r, |s| - |l|);
    r
  }

  /** Trailing trim characters after a string that starts and ends with other characters are all `trim` removes. */
  lemma TrimPadded(s: string, pad: string)
    requires s != [] && !IsTrimChar(s[0]) && !IsTrimChar(s[|s| - 1])
    requires forall i :: 0 <= i < |pad| ==> IsTrimChar(pad[i])
    ensures Trim(s + pad) == s
  {
    var t := s + pad;
    var r := Trim(t);
    var k: nat :| TrimmedAt(t, r, k);
    assert t[0] == s[0] && t[|s| - 1] == s[|s| - 1];
    assert forall i :: |s| <= i < |t| ==> t[i] == pad[i - |s|];
  }

  /** A string that neither starts nor ends with a trim character is its own trim. */
  lemma TrimUntouched(s: string)
    requires s != [] && !IsTrimChar(s[0]) && !IsTrimChar(s[|s| - 1])
    ensures Trim(s) == s
  {
    TrimPadded(s, "");
    assert s + "" == s;
  }

  /** A string made only of trim characters trims to nothing. */
  lemma TrimAllTrimmed(s: string)
    requires forall i :: 0 <= i < |s| ==> IsTrimChar(s[i])
    ensures Trim(s) == ""
  {
    var r := Trim(s);
    var k: nat :| TrimmedAt(s, r, k);
  }

  // ---------------------------------------------------------------------
  // strtoupper
  // ---------------------------------------------------------------------

  /** An ASCII lower-case letter. */
  predicate IsLower(c: char)
  {
    'a' <= c <= 'z'
  }

  /** The ASCII upper-case of one byte; every other byte is kept. */
  function UpperChar(c: char): (u: char)
    ensures !IsLower(u)
    ensures !IsLower(c) ==> u == c
    ensures IsLower(c) ==> u as int == c as int - 32 && 'A' <= u <= 'Z'
  {
    if IsLower(c) then (c as int - 32) as char else c
  }

  /** PHP `strtoupper(s)` (byte-wise, ASCII letters only, as since PHP 8.2). */
  function StrToUpper(s: string): (r: string)
    ensures |r| == |s|
    ensures forall i :: 0 <= i < |s| ==> r[i] == UpperChar(s[i])
    decreases |s|
  {
    if s == [] then [] else [UpperChar(s[0])] + StrToUpper(s[1..])
  }

  /** No ASCII lower-case letter in `s`. */
  predicate NoLower(s: string)
  {
    forall i :: 0 <= i < |s| ==> !IsLower(s[i])
  }

  /** Upper-casing leaves no lower-case letter, and changes nothing when there is none. */
  lemma StrToUpperNoLower(s: string)
    ensures NoLower(StrToUpper(s))
    ensures NoLower(s) <==> StrToUpper(s) == s
  {
    if NoLower(s) {
      assert StrToUpper(s) == s;
    }
    if StrToUpper(s) == s {
      forall i | 0 <= i < |s| ensures !IsLower(s[i]) {
        assert s[i] == UpperChar(s[i]);
      }
    }
  }

  /** Upper-casing is idempotent. */
  lemma StrToUpperIdempotent(s: string)
    ensures StrToUpper(StrToUpper(s)) == StrToUpper(s)
  {
    StrToUpperNoLower(s);
    StrToUpperNoLower(StrToUpper(s));
  }
}
