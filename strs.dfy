/** Option type shared by the modules of this model. */
module Wrappers {
  datatype Option<+T> = None | Some(value: T)
}

/**
 * The operations of Go's `strings` and `strconv`/`fmt` packages that the
 * topic code relies on, over `string` (`seq<char>`).
 */
module Strs {
  import opened Wrappers

  /** `sub` occurs in `s` starting at index `i`. */
  predicate OccursAt(s: string, sub: string, i: nat) {
    i + |sub| <= |s| && s[i..i + |sub|] == sub
  }

  lemma OccursAtTail(s: string, sub: string, j: nat)
    requires |s| > 0
    ensures OccursAt(s[1..], sub, j) <==> OccursAt(s, sub, j + 1)
  {
    if j + |sub| <= |s[1..]| {
      assert s[1..][j..j + |sub|] == s[j + 1..j + 1 + |sub|];
    }
  }

  /** `strings.Index`: the first position at which `sub` occurs in `s`. */
  function IndexOf(s: string, sub: string): (r: Option<nat>)
    ensures r.Some? ==> r.value + |sub| <= |s|
    decreases |s|
  {
    if |sub| > |s| then None
    else if s[..|sub|] == sub then Some(0)
    else match IndexOf(s[1..], sub)
      case Some(k) => Some(k + 1)
      case None => None
  }

  /** `IndexOf` finds an occurrence, and none before it; `None` means there is none. */
  lemma {:induction false} IndexOfFirst(s: string, sub: string)
    ensures IndexOf(s, sub).Some? ==> OccursAt(s, sub, IndexOf(s, sub).value)
    ensures IndexOf(s, sub).Some? ==> forall j :: 0 <= j < IndexOf(s, sub).value ==> !OccursAt(s, sub, j)
    ensures IndexOf(s, sub).None? ==> forall j :: !OccursAt(s, sub, j)
    decreases |s|
  {
    if |sub| <= |s| {
      if s[..|sub|] == sub {
        assert s[0..|sub|] == s[..|sub|];
      } else {
        IndexOfFirst(s[1..], sub);
        assert !OccursAt(s, sub, 0) by { assert s[0..|sub|] == s[..|sub|]; }
        forall j: nat | j >= 1 ensures OccursAt(s[1..], sub, j - 1) <==> OccursAt(s, sub, j) {
          OccursAtTail(s, sub, j - 1);
        }
      }
    }
  }

  /** An occurrence with none before it is the one `IndexOf` finds. */
  lemma {:induction false} IndexOfIs(s: string, sub: string, i: nat)
    requires OccursAt(s, sub, i)
    requires forall j :: 0 <= j < i ==> !OccursAt(s, sub, j)
    ensures IndexOf(s, sub) == Some(i)
    decreases i
  {
    if i == 0 {
      assert s[0..|sub|] == s[..|sub|];
    } else {
      assert s[..|sub|] != sub by {
        assert !OccursAt(s, sub, 0);
        assert s[0..|sub|] == s[..|sub|];
      }
      OccursAtTail(s, sub, i - 1);
      forall j | 0 <= j < i - 1 ensures !OccursAt(s[1..], sub, j) {
        OccursAtTail(s, sub, j);
      }
      IndexOfIs(s[1..], sub, i - 1);
    }
  }

  /** `strings.Contains`. */
  predicate Contains(s: string, sub: string) {
    IndexOf(s, sub).Some?
  }

  /** An occurrence anywhere makes `Contains` hold. */
  lemma ContainsAt(s: string, sub: string, i: nat)
    requires OccursAt(s, sub, i)
    ensures Contains(s, sub)
  {
    IndexOfFirst(s, sub);
  }

  /** `strings.Replace(s, pat, rep, 1)`: replace the first occurrence only. */
  function ReplaceFirst(s: string, pat: string, rep: string): (r: string)
    ensures !Contains(s, pat) ==> r == s
  {
    match IndexOf(s, pat)
    case None => s
    case Some(i) => s[..i] + rep + s[i + |pat|..]
  }

  /** `strings.ReplaceAll(s, pat, rep)` for a non-empty `pat`: replace the
      first occurrence and carry on after it, so occurrences are replaced left
      to right and without overlap. */
  function ReplaceAll(s: string, pat: string, rep: string): string
    requires |pat| > 0
    decreases |s|
  {
    match IndexOf(s, pat)
    case None => s
    case Some(i) => s[..i] + rep + ReplaceAll(s[i + |pat|..], pat, rep)
  }

  /** Number of occurrences of `c` in `s`. */
  function CountChar(s: string, c: char): nat {
    if s == [] then 0 else (if s[0] == c then 1 else 0) + CountChar(s[1..], c)
  }

  lemma {:induction false} CountCharAppend(a: string, b: string, c: char)
    ensures CountChar(a + b, c) == CountChar(a, c) + CountChar(b, c)
  {
    if a != [] {
      assert (a + b)[0] == a[0] && (a + b)[1..] == a[1..] + b;
      CountCharAppend(a[1..], b, c);
    } else {
      assert a + b == b;
    }
  }

  /** `strings.Join`. */
  function Join(parts: seq<string>, sep: string): string {
    if |parts| == 0 then ""
    else if |parts| == 1 then parts[0]
    else parts[0] + sep + Join(parts[1..], sep)
  }

  /** `strings.Split(s, string(sep))`: never empty, a piece per separator plus one. */
  function Split(s: string, sep: char): (parts: seq<string>)
    ensures |parts| == CountChar(s, sep) + 1
    ensures forall p <- parts :: sep !in p
    ensures Join(parts, [sep]) == s
    decreases |s|
  {
    if s == [] then [""]
    else
      var rest := Split(s[1..], sep);
      if s[0] == sep then [""] + rest
      else
        assert Join([[s[0]] + rest[0]] + rest[1..], [sep]) == [s[0]] + Join(rest, [sep]);
        [[s[0]] + rest[0]] + rest[1..]
  }

  /** Splitting a join undoes it when no piece contains the separator. */
  lemma {:induction false} SplitJoin(parts: seq<string>, sep: char)
    requires |parts| >= 1
    requires forall p <- parts :: sep !in p
    ensures Split(Join(parts, [sep]), sep) == parts
    decreases |parts|, |parts[0]|
  {
    if |parts| == 1 {
      SplitNoSep(parts[0], sep);
    } else if parts[0] == [] {
      var tail := Join(parts[1..], [sep]);
      assert Join(parts, [sep]) == [sep] + tail;
      assert ([sep] + tail)[1..] == tail;
      SplitJoin(parts[1..], sep);
    } else {
      var s := Join(parts, [sep]);
      var shorter := [parts[0][1..]] + parts[1..];
      assert shorter[0] == parts[0][1..] && shorter[1..] == parts[1..];
      assert forall p <- shorter :: sep !in p by {
        assert forall c <- parts[0][1..] :: c in parts[0];
      }
      assert s == [parts[0][0]] + Join(shorter, [sep]);
      assert s[0] == parts[0][0] != sep && s[1..] == Join(shorter, [sep]);
      SplitJoin(shorter, sep);
      assert [parts[0][0]] + parts[0][1..] == parts[0];
      assert Split(s, sep) == [[s[0]] + shorter[0]] + shorter[1..];
    }
  }

  /** A first piece without the separator splits off whole. */
  lemma {:induction false} SplitCons(a: string, b: string, sep: char)
    requires sep !in a
    ensures Split(a + [sep] + b, sep) == [a] + Split(b, sep)
    decreases |a|
  {
    var s := a + [sep] + b;
    if a == [] {
      assert s == [sep] + b && s[1..] == b;
    } else {
      assert s[0] == a[0] && s[1..] == a[1..] + [sep] + b;
      SplitCons(a[1..], b, sep);
      assert [a[0]] + a[1..] == a;
    }
  }

  /** The first piece ends where the first separator is. */
  lemma {:induction false} SplitFirst(a: string, tail: string, sep: char)
    requires sep !in a
    requires tail == [] || tail[0] == sep
    ensures Split(a + tail, sep)[0] == a
    decreases |a|
  {
    var s := a + tail;
    if a == [] {
      assert s == tail;
    } else {
      assert s[0] == a[0] && s[1..] == a[1..] + tail;
      SplitFirst(a[1..], tail, sep);
      assert [a[0]] + a[1..] == a;
    }
  }

  lemma {:induction false} SplitNoSep(s: string, sep: char)
    requires sep !in s
    ensures Split(s, sep) == [s]
    decreases |s|
  {
    if s != [] {
      SplitNoSep(s[1..], sep);
      assert [s[0]] + s[1..] == s;
    }
  }

  /** Drop the leading characters for which `cut` holds. */
  function TrimLeft(s: string, cut: char -> bool): (r: string)
    ensures |r| <= |s| && r == s[|s| - |r|..]
    ensures r == [] || !cut(r[0])
    ensures forall k :: 0 <= k < |s| - |r| ==> cut(s[k])
    decreases |s|
  {
    if s != [] && cut(s[0]) then TrimLeft(s[1..], cut) else s
  }

  /** Drop the trailing characters for which `cut` holds. */
  function TrimRight(s: string, cut: char -> bool): (r: string)
    ensures |r| <= |s| && r == s[..|r|]
    ensures r == [] || !cut(r[|r| - 1])
    ensures forall k :: |r| <= k < |s| ==> cut(s[k])
    decreases |s|
  {
    if s != [] && cut(s[|s| - 1]) then TrimRight(s[..|s| - 1], cut) else s
  }

  /** `r` is what is left of `s` once its first `i` characters and every
      character after `r` are dropped, all of which satisfy `cut`. */
  predicate TrimmedAt(s: string, r: string, cut: char -> bool, i: nat) {
    && i + |r| <= |s|
    && s[i..i + |r|] == r
    && (forall k :: 0 <= k < i ==> cut(s[k]))
    && (forall k :: i + |r| <= k < |s| ==> cut(s[k]))
  }

  /** `strings.TrimFunc`: drop the cut characters at both ends, and no more. */
  function Trim(s: string, cut: char -> bool): (r: string)
    ensures r == [] || (!cut(r[0]) && !cut(r[|r| - 1]))
    ensures exists i :: TrimmedAt(s, r, cut, i)
  {
    var left := TrimLeft(s, cut);
    var r := TrimRight(left, cut);
    var i := |s| - |left|;
    assert s[i..i + |r|] == r;
    assert r != [] ==> r[0] == left[0];
    assert TrimmedAt(s, r, cut, i);
    r
  }

  /** `unicode.IsSpace`: the Latin-1 spaces and the Unicode White_Space runes. */
  predicate IsSpace(c: char) {
    c == '\t' || c == '\n' || c == '\U{000B}' || c == '\U{000C}' || c == '\r' || c == ' '
    || c == '\U{0085}' || c == '\U{00A0}' || c == '\U{1680}'
    || ('\U{2000}' <= c <= '\U{200A}')
    || c == '\U{2028}' || c == '\U{2029}' || c == '\U{202F}' || c == '\U{205F}' || c == '\U{3000}'
  }

  /** `strings.TrimSpace`. */
  function TrimSpace(s: string): string {
    Trim(s, IsSpace)
  }

  /** A decimal digit. */
  predicate IsDigit(c: char) {
    '0' <= c <= '9'
  }

  function DigitChar(d: nat): (c: char)
    requires d < 10
    ensures IsDigit(c)
  {
    ('0' as int + d) as char
  }

  /** `%d` of a natural number: decimal digits, no leading zero. */
  function NatToString(n: nat): (r: string)
    ensures |r| >= 1
    ensures forall c <- r :: IsDigit(c)
    ensures |r| > 1 ==> r[0] != '0'
    decreases n
  {
    if n < 10 then [DigitChar(n)] else NatToString(n / 10) + [DigitChar(n % 10)]
  }

  /** Different numbers print differently. */
  lemma {:induction false} NatToStringInjective(m: nat, n: nat)
    requires NatToString(m) == NatToString(n)
    ensures m == n
    decreases m
  {
    var s := NatToString(m);
    if m < 10 && n < 10 {
    } else if m < 10 || n < 10 {
      assert false;
    } else {
      var pm, pn := NatToString(m / 10), NatToString(n / 10);
      assert s == pm + [DigitChar(m % 10)];
      assert s == pn + [DigitChar(n % 10)];
      assert |pm| == |pn|;
      assert pm == s[..|s| - 1] == pn;
      NatToStringInjective(m / 10, n / 10);
      assert DigitChar(m % 10) == s[|s| - 1] == DigitChar(n % 10);
    }
  }

  /** `%d` of an integer. */
  function IntToString(n: int): (r: string)
    ensures |r| >= 1 && (r[0] == '-' || IsDigit(r[0]))
    ensures forall c <- r[1..] :: IsDigit(c)
  {
    if n < 0 then "-" + NatToString(-n) else NatToString(n)
  }
}
