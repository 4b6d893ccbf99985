/**
 * The PHP string functions the codecs are built from: trim, strpos, explode,
 * implode, str_replace, strtoupper, the `,\s*letter` regular-expression
 * replacement of the WKT reader, float and integer conversion of numeric text,
 * and Laravel's Str::studly.  A PHP string is a `string` whose characters are
 * bytes.
 */
module Text {
  import opened Wrappers

  const VerticalTab: char := '\U{0B}'
  const FormFeed: char := '\U{0C}'

  // ---------------------------------------------------------------- trimming

  /** The characters PHP's trim() removes by default. */
  predicate IsTrimChar(c: char)
  {
    c == ' ' || c == '\t' || c == '\n' || c == '\r' || c == '\0' || c == VerticalTab
  }

  function LTrim(s: string): (r: string)
    ensures |r| <= |s| && r == s[|s| - |r|..]
    ensures r == [] || !IsTrimChar(r[0])
    ensures forall i :: 0 <= i < |s| - |r| ==> IsTrimChar(s[i])
  {
    if s != [] && IsTrimChar(s[0]) then LTrim(s[1..]) else s
  }

  function RTrim(s: string): (r: string)
    ensures |r| <= |s| && r == s[..|r|]
    ensures r == [] || !IsTrimChar(r[|r| - 1])
    ensures forall i :: |r| <= i < |s| ==> IsTrimChar(s[i])
  {
    if s != [] && IsTrimChar(s[|s| - 1]) then RTrim(s[..|s| - 1]) else s
  }

  /** trim($s): the longest middle part that neither starts nor ends with a trim character. */
  function Trim(s: string): (r: string)
    ensures |r| <= |s|
    ensures r == [] || (!IsTrimChar(r[0]) && !IsTrimChar(r[|r| - 1]))
  {
    RTrim(LTrim(s))
  }

  lemma TrimOfUntrimmable(s: string)
    requires s == [] || (!IsTrimChar(s[0]) && !IsTrimChar(s[|s| - 1]))
    ensures Trim(s) == s
  {
  }

  // ------------------------------------------------------ searching and splitting

  predicate OccursAt(s: string, sep: string, i: int)
  {
    0 <= i && i + |sep| <= |s| && s[i..i + |sep|] == sep
  }

  lemma OccursAtTail(s: string, sep: string, i: nat)
    requires s != []
    ensures OccursAt(s[1..], sep, i) <==> OccursAt(s, sep, i + 1)
  {
    if i + |sep| <= |s[1..]| {
      assert s[1..][i..i + |sep|] == s[i + 1..i + 1 + |sep|];
    }
  }

  lemma OccursShift(s: string, sep: string)
    requires s != []
    ensures forall j :: 1 <= j ==> (OccursAt(s, sep, j) <==> OccursAt(s[1..], sep, j - 1))
  {
    forall j | 1 <= j ensures OccursAt(s, sep, j) <==> OccursAt(s[1..], sep, j - 1) {
      OccursAtTail(s, sep, j - 1);
    }
  }

  /** strpos($s, $sep): the first position where `sep` occurs. */
  function Find(s: string, sep: string): (r: Option<nat>)
    requires |sep| > 0
    ensures r.Some? ==> OccursAt(s, sep, r.value)
    ensures r.Some? ==> forall j :: 0 <= j < r.value ==> !OccursAt(s, sep, j)
    ensures r.None? ==> forall j :: !OccursAt(s, sep, j)
    decreases |s|
  {
    if |s| < |sep| then None
    else if s[..|sep|] == sep then Some(0)
    else
      OccursShift(s, sep);
      match Find(s[1..], sep)
      case None => None
      case Some(i) => Some(i + 1)
  }

  lemma FindChar(s: string, c: char)
    ensures Find(s, [c]).None? <==> c !in s
    ensures Find(s, [c]).Some? ==> s[Find(s, [c]).value] == c
  {
    if c in s {
      var i :| 0 <= i < |s| && s[i] == c;
      assert OccursAt(s, [c], i);
    }
    if Find(s, [c]).Some? {
      var v := Find(s, [c]).value;
      assert s[v..v + 1] == [c];
      assert s[v] == s[v..v + 1][0];
    }
  }

  /** The first occurrence of a character. */
  lemma FindFirstChar(s: string, c: char, i: nat)
    requires i < |s| && s[i] == c
    requires forall j :: 0 <= j < i ==> s[j] != c
    ensures Find(s, [c]) == Some(i)
  {
    assert s[i..i + 1] == [c];
    assert OccursAt(s, [c], i);
    var v := Find(s, [c]).value;
    assert s[v..v + 1][0] == s[v];
  }

  /** A separator whose first character is absent from the text is not found. */
  lemma FindNoneOfFirst(s: string, sep: string)
    requires |sep| > 0 && sep[0] !in s
    ensures Find(s, sep).None?
  {
    forall j ensures !OccursAt(s, sep, j) {
      if 0 <= j && j + |sep| <= |s| {
        assert s[j..j + |sep|][0] == s[j];
      }
    }
  }

  lemma OccursShifted(a: string, b: string, sep: string, j: nat)
    ensures OccursAt(b, sep, j) <==> OccursAt(a + b, sep, |a| + j)
  {
    if j + |sep| <= |b| {
      assert (a + b)[|a| + j..|a| + j + |sep|] == b[j..j + |sep|];
    }
  }

  /** Find on `a + b` when the separator cannot start inside `a`. */
  lemma OccursShiftedAll(a: string, b: string, sep: string)
    ensures forall j: nat :: OccursAt(b, sep, j) <==> OccursAt(a + b, sep, |a| + j)
  {
    forall j: nat ensures OccursAt(b, sep, j) <==> OccursAt(a + b, sep, |a| + j) {
      OccursShifted(a, b, sep, j);
    }
  }

  lemma FindAfterPrefix(a: string, b: string, sep: string)
    requires |sep| > 0
    requires forall j :: 0 <= j < |a| ==> !OccursAt(a + b, sep, j)
    ensures Find(a + b, sep).Some? <==> Find(b, sep).Some?
    ensures Find(b, sep).Some? ==> Find(a + b, sep).value == |a| + Find(b, sep).value
  {
    OccursShiftedAll(a, b, sep);
    if Find(a + b, sep).Some? {
      var i := Find(a + b, sep).value;
      assert OccursAt(b, sep, i - |a|);
    }
    if Find(b, sep).Some? {
      var k := Find(b, sep).value;
      assert OccursAt(a + b, sep, |a| + k);
      var i := Find(a + b, sep).value;
      assert i >= |a|;
      assert OccursAt(b, sep, i - |a|);
    }
  }

  /** explode($sep, $s). */
  function Explode(s: string, sep: string): (parts: seq<string>)
    requires |sep| > 0
    ensures |parts| >= 1
    ensures forall p :: p in parts ==> |p| <= |s|
    decreases |s|
  {
    match Find(s, sep)
    case None => [s]
    case Some(i) => [s[..i]] + Explode(s[i + |sep|..], sep)
  }

  /** Splitting at a character that does not occur before it: the text before it, then the rest split. */
  lemma ExplodeAtFirst(a: string, c: char, b: string)
    requires c !in a
    ensures Find(a + [c] + b, [c]) == Some(|a|)
    ensures Explode(a + [c] + b, [c]) == [a] + Explode(b, [c])
  {
    var s := a + [c] + b;
    assert s[|a|] == c;
    forall j | 0 <= j < |a| ensures s[j] != c {
      assert s[j] == a[j];
    }
    FindFirstChar(s, c, |a|);
    assert s[..|a|] == a;
    assert s[|a| + 1..] == b;
  }

  /** implode($sep, $parts). */
  function Join(sep: string, parts: seq<string>): string
  {
    if |parts| == 0 then ""
    else if |parts| == 1 then parts[0]
    else parts[0] + sep + Join(sep, parts[1..])
  }

  lemma JoinCons(sep: string, p: string, rest: seq<string>)
    requires rest != []
    ensures Join(sep, [p] + rest) == p + sep + Join(sep, rest)
  {
    assert ([p] + rest)[1..] == rest;
  }

  lemma JoinAppend(sep: string, parts: seq<string>, last: string)
    requires parts != []
    ensures Join(sep, parts + [last]) == Join(sep, parts) + sep + last
    decreases |parts|
  {
    if |parts| == 1 {
      assert parts + [last] == [parts[0]] + [last];
    } else {
      assert (parts + [last])[1..] == parts[1..] + [last];
      JoinAppend(sep, parts[1..], last);
    }
  }

  /** Joining the pieces explode() produced gives back the text. */
  lemma {:induction false} JoinExplode(s: string, sep: string)
    requires |sep| > 0
    ensures Join(sep, Explode(s, sep)) == s
    decreases |s|
  {
    match Find(s, sep)
    case None =>
    case Some(i) =>
      var rest := Explode(s[i + |sep|..], sep);
      JoinExplode(s[i + |sep|..], sep);
      JoinCons(sep, s[..i], rest);
      assert s == s[..i] + sep + s[i + |sep|..];
  }

  /** The separator cannot start inside `p` when `p` is followed by it. */
  predicate NoEarlySeparator(p: string, sep: string)
  {
    forall j :: 0 <= j < |p| ==> !OccursAt(p + sep, sep, j)
  }

  /** Parts that can be told apart again after joining. */
  predicate Separable(parts: seq<string>, sep: string)
    requires |sep| > 0
  {
    |parts| >= 1
    && (forall i :: 0 <= i < |parts| - 1 ==> NoEarlySeparator(parts[i], sep))
    && Find(parts[|parts| - 1], sep).None?
  }

  /** explode() undoes implode() when no part hides the separator. */
  lemma {:induction false} ExplodeJoin(parts: seq<string>, sep: string)
    requires |sep| > 0 && Separable(parts, sep)
    ensures Explode(Join(sep, parts), sep) == parts
    decreases |parts|
  {
    if |parts| > 1 {
      var p := parts[0];
      var rest := parts[1..];
      var tail := Join(sep, rest);
      JoinCons(sep, p, rest);
      assert parts == [p] + rest;
      var s := p + sep + tail;
      assert NoEarlySeparator(p, sep);
      forall j | 0 <= j < |p| ensures !OccursAt(s, sep, j) {
        assert !OccursAt(p + sep, sep, j);
        if j + |sep| <= |s| {
          assert s[j..j + |sep|] == (p + sep)[j..j + |sep|];
        }
      }
      assert OccursAt(s, sep, |p|) by {
        assert s[|p|..|p| + |sep|] == sep;
      }
      assert Find(s, sep) == Some(|p|);
      assert s[|p| + |sep|..] == tail;
      assert s[..|p|] == p;
      assert Separable(rest, sep) by {
        forall i | 0 <= i < |rest| - 1 ensures NoEarlySeparator(rest[i], sep) {
          assert rest[i] == parts[i + 1];
        }
      }
      ExplodeJoin(rest, sep);
    }
  }

  /** A one-character separator absent from every part. */
  lemma ExplodeJoinChar(parts: seq<string>, c: char)
    requires |parts| >= 1
    requires forall i :: 0 <= i < |parts| ==> c !in parts[i]
    ensures Explode(Join([c], parts), [c]) == parts
  {
    forall i | 0 <= i < |parts| ensures NoEarlySeparator(parts[i], [c]) && Find(parts[i], [c]).None? {
      FindChar(parts[i], c);
      forall j | 0 <= j < |parts[i]| ensures !OccursAt(parts[i] + [c], [c], j) {
        assert (parts[i] + [c])[j] == parts[i][j];
      }
    }
    ExplodeJoin(parts, [c]);
  }

  /** Every part is no longer than the joined text. */
  lemma {:induction false} JoinPartLength(sep: string, parts: seq<string>, i: nat)
    requires i < |parts|
    ensures |parts[i]| <= |Join(sep, parts)|
    decreases |parts|
  {
    if i > 0 {
      JoinPartLength(sep, parts[1..], i - 1);
    }
  }

  /** Joining two runs of parts is joining each and putting the separator between. */
  lemma {:induction false} JoinConcat(sep: string, a: seq<string>, b: seq<string>)
    requires a != [] && b != []
    ensures Join(sep, a + b) == Join(sep, a) + sep + Join(sep, b)
    decreases |a|
  {
    if |a| == 1 {
      assert a + b == [a[0]] + b;
      JoinCons(sep, a[0], b);
    } else {
      JoinConcat(sep, a[1..], b);
      assert a + b == [a[0]] + (a[1..] + b);
      JoinCons(sep, a[0], a[1..] + b);
      assert a == [a[0]] + a[1..];
      JoinCons(sep, a[0], a[1..]);
    }
  }

  /** The first piece explode() returns starts like the text when the text does not start with the separator. */
  lemma ExplodeHead(s: string, sep: string)
    requires |sep| > 0 && s != [] && s[0] != sep[0]
    ensures Explode(s, sep)[0] != [] && Explode(s, sep)[0][0] == s[0]
  {
    match Find(s, sep)
    case None =>
    case Some(i) =>
      assert !OccursAt(s, sep, 0) by {
        if |sep| <= |s| {
          assert s[0..|sep|][0] == s[0];
        }
      }
      assert s[..i][0] == s[0];
  }

  lemma JoinNotIn(sep: string, parts: seq<string>, c: char)
    requires c !in sep
    requires forall i :: 0 <= i < |parts| ==> c !in parts[i]
    ensures c !in Join(sep, parts)
  {
    if |parts| > 1 {
      JoinNotIn(sep, parts[1..], c);
    }
  }

  // ------------------------------------------------------------- str_replace

  /** str_replace($search, $replace, $s): every occurrence, left to right. */
  function StrReplace(s: string, search: string, replace: string): (r: string)
    requires |search| > 0
    ensures |replace| <= |search| ==> |r| <= |s|
    decreases |s|
  {
    if s == [] then []
    else if OccursAt(s, search, 0) then replace + StrReplace(s[|search|..], search, replace)
    else [s[0]] + StrReplace(s[1..], search, replace)
  }

  /** The WKT reader's normalisation: str_replace(', ', ',', $s). */
  function CollapseCommaSpace(s: string): (r: string)
    ensures |r| <= |s|
  {
    StrReplace(s, ", ", ",")
  }

  lemma {:induction false} CollapseConcat(a: string, b: string)
    requires a == [] || a[|a| - 1] != ',' || b == [] || b[0] != ' '
    ensures CollapseCommaSpace(a + b) == CollapseCommaSpace(a) + CollapseCommaSpace(b)
    decreases |a|
  {
    if a != [] {
      var s := a + b;
      if |a| >= 2 && OccursAt(a, ", ", 0) {
        CollapseConcat(a[2..], b);
        CollapseAtPair(a, b);
      } else {
        CollapseConcat(a[1..], b);
        CollapseAtChar(a, b);
      }
    } else {
      assert a + b == b;
    }
  }

  /** One step of CollapseConcat: `a` starts with ", ". */
  lemma CollapseAtPair(a: string, b: string)
    requires |a| >= 2 && OccursAt(a, ", ", 0)
    requires CollapseCommaSpace(a[2..] + b) == CollapseCommaSpace(a[2..]) + CollapseCommaSpace(b)
    ensures CollapseCommaSpace(a + b) == CollapseCommaSpace(a) + CollapseCommaSpace(b)
  {
    var s := a + b;
    assert s[0..2] == a[0..2];
    assert OccursAt(s, ", ", 0);
    assert s[2..] == a[2..] + b;
    assert CollapseCommaSpace(s) == "," + CollapseCommaSpace(s[2..]);
    assert CollapseCommaSpace(a) == "," + CollapseCommaSpace(a[2..]);
  }

  /** One step of CollapseConcat: `a` does not start with ", ", nor does `a + b`. */
  lemma CollapseAtChar(a: string, b: string)
    requires a != [] && !(|a| >= 2 && OccursAt(a, ", ", 0))
    requires a[|a| - 1] != ',' || b == [] || b[0] != ' '
    requires CollapseCommaSpace(a[1..] + b) == CollapseCommaSpace(a[1..]) + CollapseCommaSpace(b)
    ensures CollapseCommaSpace(a + b) == CollapseCommaSpace(a) + CollapseCommaSpace(b)
  {
    var s := a + b;
    NoCommaSpaceAhead(a, b);
    CollapseStep(s);
    CollapseStep(a);
    assert s[0] == a[0] && s[1..] == a[1..] + b;
  }

  /** Where no ", " starts, the first character is kept as it is. */
  lemma CollapseStep(s: string)
    requires s != [] && !OccursAt(s, ", ", 0)
    ensures CollapseCommaSpace(s) == [s[0]] + CollapseCommaSpace(s[1..])
  {
  }

  /** `a + b` does not start with ", " when `a` does not and no ", " straddles the two. */
  lemma NoCommaSpaceAhead(a: string, b: string)
    requires a != [] && !(|a| >= 2 && OccursAt(a, ", ", 0))
    requires a[|a| - 1] != ',' || b == [] || b[0] != ' '
    ensures !OccursAt(a + b, ", ", 0)
  {
    var s := a + b;
    if |a| >= 2 {
      assert s[0..2] == a[0..2];
    } else if |s| >= 2 {
      assert s[0..2] == [a[0], b[0]];
    }
  }

  lemma {:induction false} CollapseNoComma(s: string)
    requires ',' !in s
    ensures CollapseCommaSpace(s) == s
    decreases |s|
  {
    if s != [] {
      CollapseNoComma(s[1..]);
    }
  }

  /** Text without commas around a part: only the part is collapsed. */
  lemma CollapseAround(pre: string, x: string, post: string)
    requires ',' !in pre && ',' !in post
    requires post == [] || post[0] != ' '
    ensures CollapseCommaSpace(pre + x + post) == pre + CollapseCommaSpace(x) + post
  {
    CollapseNoComma(pre);
    CollapseNoComma(post);
    CollapseConcat(pre, x);
    CollapseConcat(pre + x, post);
  }

  /** implode(', ') of parts becomes implode(',') of their collapsed forms. */
  lemma {:induction false} CollapseJoin(parts: seq<string>, cs: seq<string>)
    requires |parts| == |cs|
    requires forall i :: 0 <= i < |parts| ==> parts[i] != [] && parts[i][|parts[i]| - 1] != ','
    requires forall i :: 0 <= i < |parts| ==> CollapseCommaSpace(parts[i]) == cs[i]
    ensures CollapseCommaSpace(Join(", ", parts)) == Join(",", cs)
    decreases |parts|
  {
    if |parts| > 1 {
      var rest := Join(", ", parts[1..]);
      CollapseJoin(parts[1..], cs[1..]);
      var tail := ", " + rest;
      assert parts[0] + ", " + rest == parts[0] + tail;
      CollapseConcat(parts[0], tail);
      assert OccursAt(tail, ", ", 0) by {
        assert tail[0..2] == ", ";
      }
      assert tail[2..] == rest;
      assert CollapseCommaSpace(tail) == "," + CollapseCommaSpace(rest);
      assert cs == [cs[0]] + cs[1..];
      JoinCons(",", cs[0], cs[1..]);
    }
  }

  /** After the collapse, no comma is followed by a space. */
  predicate NoCommaSpace(s: string)
  {
    forall i :: 0 <= i < |s| - 1 ==> !(s[i] == ',' && s[i + 1] == ' ')
  }

  lemma {:induction false} CollapseNoOp(s: string)
    requires NoCommaSpace(s)
    ensures CollapseCommaSpace(s) == s
    decreases |s|
  {
    if s != [] {
      assert !OccursAt(s, ", ", 0) by {
        if |s| >= 2 { assert !(s[0] == ',' && s[1] == ' '); }
      }
      assert NoCommaSpace(s[1..]) by {
        forall i | 0 <= i < |s[1..]| - 1 ensures !(s[1..][i] == ',' && s[1..][i + 1] == ' ') {
          assert s[1..][i] == s[i + 1] && s[1..][i + 1] == s[i + 2];
        }
      }
      CollapseNoOp(s[1..]);
    }
  }

  // ------------------------------------------------------------ letters, case

  predicate IsLetter(c: char)
  {
    ('a' <= c <= 'z') || ('A' <= c <= 'Z')
  }

  predicate IsDigit(c: char)
  {
    '0' <= c <= '9'
  }

  /** The characters `\s` matches in a PCRE pattern. */
  predicate IsRegexSpace(c: char)
  {
    c == ' ' || c == '\t' || c == '\n' || c == VerticalTab || c == FormFeed || c == '\r'
  }

  function UpperChar(c: char): char
  {
    if 'a' <= c <= 'z' then (c as int - 32) as char else c
  }

  /** strtoupper(): ASCII letters only. */
  function Upper(s: string): (r: string)
    ensures |r| == |s|
    ensures forall i :: 0 <= i < |s| ==> r[i] == UpperChar(s[i])
  {
    if s == [] then [] else [UpperChar(s[0])] + Upper(s[1..])
  }

  function LowerChar(c: char): char
  {
    if 'A' <= c <= 'Z' then (c as int + 32) as char else c
  }

  /** strtolower(): ASCII letters only. */
  function Lower(s: string): (r: string)
    ensures |r| == |s|
    ensures forall i :: 0 <= i < |s| ==> r[i] == LowerChar(s[i])
  {
    if s == [] then [] else [LowerChar(s[0])] + Lower(s[1..])
  }

  /** Text without lower-case letters is its own upper case. */
  lemma UpperOfUpper(s: string)
    requires forall i :: 0 <= i < |s| ==> !('a' <= s[i] <= 'z')
    ensures Upper(s) == s
  {
  }

  lemma UpperConcat(a: string, b: string)
    ensures Upper(a + b) == Upper(a) + Upper(b)
  {
  }

  // --------------------------------------------- preg_replace('/,\s*([A-Za-z])/', '|$1')

  /** The number of `\s` characters `s` starts with. */
  function SpaceRun(s: string): (n: nat)
    ensures n <= |s|
  {
    if s != [] && IsRegexSpace(s[0]) then 1 + SpaceRun(s[1..]) else 0
  }

  /**
   * The WKT collection reader's component splitter: every comma that is
   * followed by optional `\s` and then a letter becomes `|`, and the spaces
   * between go with it.
   */
  function MarkComponentBreaks(s: string): (r: string)
    ensures |r| <= |s|
    decreases |s|
  {
    if s == [] then []
    else if s[0] == ',' && 1 + SpaceRun(s[1..]) < |s| && IsLetter(s[1 + SpaceRun(s[1..])]) then
      var k := SpaceRun(s[1..]);
      "|" + [s[1 + k]] + MarkComponentBreaks(s[2 + k..])
    else [s[0]] + MarkComponentBreaks(s[1..])
  }

  /** No comma followed by spaces and a letter. */
  predicate NoComponentBreak(s: string)
  {
    forall i :: 0 <= i < |s| - 1 && s[i] == ',' ==> !IsRegexSpace(s[i + 1]) && !IsLetter(s[i + 1])
  }

  lemma MarkPlain(s: string)
    requires s != []
    requires !(s[0] == ',' && 1 + SpaceRun(s[1..]) < |s| && IsLetter(s[1 + SpaceRun(s[1..])]))
    ensures MarkComponentBreaks(s) == [s[0]] + MarkComponentBreaks(s[1..])
  {
  }

  /** The first character of such a text is not the start of a break. */
  lemma MarkFirstPlain(a: string, c: string)
    requires a != [] && NoComponentBreak(a)
    requires c != [] ==> !IsRegexSpace(c[0]) && !IsLetter(c[0])
    ensures MarkComponentBreaks(a + c) == [a[0]] + MarkComponentBreaks(a[1..] + c)
  {
    var s := a + c;
    assert s[1..] == a[1..] + c;
    if a[0] == ',' && |s| > 1 {
      assert s[1] == if |a| > 1 then a[1] else c[0];
      assert !IsRegexSpace(s[1]) && !IsLetter(s[1]);
      assert SpaceRun(s[1..]) == 0;
    }
    MarkPlain(s);
  }

  /** Text without a component break passes through the splitter unchanged when followed by `c`. */
  lemma {:induction false} MarkBreaksPrefix(a: string, c: string)
    requires NoComponentBreak(a)
    requires c != [] ==> !IsRegexSpace(c[0]) && !IsLetter(c[0])
    ensures MarkComponentBreaks(a + c) == a + MarkComponentBreaks(c)
    decreases |a|
  {
    if a == [] {
      assert a + c == c;
    } else {
      MarkFirstPlain(a, c);
      NoBreakTail(a);
      MarkBreaksPrefix(a[1..], c);
      HeadTailAppend(a, MarkComponentBreaks(c));
    }
  }

  lemma HeadTailAppend(a: string, m: string)
    requires a != []
    ensures [a[0]] + (a[1..] + m) == a + m
  {
    assert a == [a[0]] + a[1..];
  }

  /** A text without a component break has none after its first character either. */
  lemma NoBreakTail(a: string)
    requires a != [] && NoComponentBreak(a)
    ensures NoComponentBreak(a[1..])
  {
    forall i | 0 <= i < |a[1..]| - 1 && a[1..][i] == ','
      ensures !IsRegexSpace(a[1..][i + 1]) && !IsLetter(a[1..][i + 1])
    {
      assert a[i + 1] == ',' && a[1..][i + 1] == a[i + 2];
    }
  }

  /** Text that holds no component break is left as it is. */
  lemma MarkBreaksNoOp(s: string)
    requires NoComponentBreak(s)
    ensures MarkComponentBreaks(s) == s
  {
    MarkBreaksPrefix(s, []);
    assert s + [] == s;
  }

  /** A comma before a letter is the one place the splitter marks. */
  lemma MarkBreaksAtLetter(b: string)
    requires b != [] && IsLetter(b[0])
    ensures MarkComponentBreaks("," + b) == "|" + MarkComponentBreaks(b)
  {
    var s := [','] + b;
    assert s[1..] == b && s[2..] == b[1..];
    assert !IsRegexSpace(b[0]);
    assert SpaceRun(b) == 0;
    var k := SpaceRun(s[1..]);
    assert s != [] && s[0] == ',' && k == 0 && 1 + k < |s| && s[1 + k] == b[0] && IsLetter(s[1 + k]);
    assert MarkComponentBreaks(s) == "|" + [b[0]] + MarkComponentBreaks(b[1..]);
    MarkPlain(b);
    assert [b[0]] + MarkComponentBreaks(b[1..]) == MarkComponentBreaks(b);
  }

  lemma JoinFirst(sep: string, parts: seq<string>)
    requires parts != [] && parts[0] != []
    ensures Join(sep, parts) != [] && Join(sep, parts)[0] == parts[0][0]
  {
  }

  lemma JoinLast(sep: string, parts: seq<string>)
    requires parts != [] && parts[|parts| - 1] != []
    ensures |Join(sep, parts)| >= |parts[|parts| - 1]|
    ensures Join(sep, parts)[|Join(sep, parts)| - 1] == parts[|parts| - 1][|parts[|parts| - 1]| - 1]
    decreases |parts|
  {
    if |parts| > 1 {
      JoinLast(sep, parts[1..]);
    }
  }

  /**
   * Parts that begin with a letter and hold no break of their own, joined
   * with commas, come out of the splitter joined with `|`.
   */
  lemma {:induction false} MarkJoin(cs: seq<string>)
    requires forall i :: 0 <= i < |cs| ==> cs[i] != [] && IsLetter(cs[i][0]) && NoComponentBreak(cs[i])
    ensures MarkComponentBreaks(Join(",", cs)) == Join("|", cs)
    decreases |cs|
  {
    if |cs| == 1 {
      MarkBreaksNoOp(cs[0]);
    } else if |cs| > 1 {
      var rest := Join(",", cs[1..]);
      JoinFirst(",", cs[1..]);
      assert cs[0] + "," + rest == cs[0] + ("," + rest);
      MarkBreaksPrefix(cs[0], "," + rest);
      MarkBreaksAtLetter(rest);
      MarkJoin(cs[1..]);
      JoinCons("|", cs[0], cs[1..]);
      assert cs == [cs[0]] + cs[1..];
    }
  }

  /** Text without a component break has no comma followed by a space either. */
  lemma NoBreakNoCommaSpace(s: string)
    requires NoComponentBreak(s)
    ensures NoCommaSpace(s)
  {
  }

  lemma NoBreakConcat(a: string, b: string)
    requires NoComponentBreak(a) && NoComponentBreak(b)
    requires a != [] && b != [] && a[|a| - 1] == ',' ==> !IsRegexSpace(b[0]) && !IsLetter(b[0])
    ensures NoComponentBreak(a + b)
  {
    var s := a + b;
    forall i | 0 <= i < |s| - 1 && s[i] == ',' ensures !IsRegexSpace(s[i + 1]) && !IsLetter(s[i + 1]) {
      if i < |a| - 1 {
        assert s[i] == a[i] && s[i + 1] == a[i + 1];
      } else if i == |a| - 1 {
        assert s[i + 1] == b[0];
      } else {
        assert s[i] == b[i - |a|] && s[i + 1] == b[i - |a| + 1];
      }
    }
  }

  /** Parts that start with neither a space nor a letter, joined with commas, add no component break. */
  lemma {:induction false} JoinNoBreak(parts: seq<string>)
    requires forall i :: 0 <= i < |parts| ==>
      NoComponentBreak(parts[i]) && parts[i] != [] && !IsRegexSpace(parts[i][0]) && !IsLetter(parts[i][0])
    ensures NoComponentBreak(Join(",", parts))
    decreases |parts|
  {
    if |parts| > 1 {
      var rest := Join(",", parts[1..]);
      JoinNoBreak(parts[1..]);
      JoinFirst(",", parts[1..]);
      NoBreakConcat(parts[0], ",");
      NoBreakConcat(parts[0] + ",", rest);
    }
  }

  // ------------------------------------------------------- wrapped parts

  /** Every part between `open` and `close`. */
  function Wrapped(xs: seq<string>, open: string, close: string): (r: seq<string>)
    ensures |r| == |xs| && forall i :: 0 <= i < |xs| ==> r[i] == open + xs[i] + close
  {
    seq(|xs|, i requires 0 <= i < |xs| => open + xs[i] + close)
  }

  /** The parts as explode() returns them: `open` on the first only, `close` on the last only. */
  function Opened(xs: seq<string>, open: string, close: string): (r: seq<string>)
    ensures |r| == |xs|
    ensures forall i :: 0 <= i < |xs| ==>
      r[i] == (if i == 0 then open else "") + xs[i] + (if i == |xs| - 1 then close else "")
  {
    seq(|xs|, i requires 0 <= i < |xs| => (if i == 0 then open else "") + xs[i] + (if i == |xs| - 1 then close else ""))
  }

  /** Wrapped parts joined with commas are the parts joined with `close,open`, wrapped once. */
  lemma {:induction false} JoinWrapped(xs: seq<string>, open: string, close: string)
    requires xs != []
    ensures Join(",", Wrapped(xs, open, close)) == open + Join(close + "," + open, xs) + close
    decreases |xs|
  {
    if |xs| > 1 {
      var w := Wrapped(xs, open, close);
      assert w[1..] == Wrapped(xs[1..], open, close);
      JoinWrapped(xs[1..], open, close);
      JoinCons(",", w[0], w[1..]);
      assert w == [w[0]] + w[1..];
      JoinCons(close + "," + open, xs[0], xs[1..]);
      assert xs == [xs[0]] + xs[1..];
    }
  }

  lemma {:induction false} JoinOpened(xs: seq<string>, sep: string, open: string, close: string)
    requires xs != []
    ensures Join(sep, Opened(xs, open, close)) == open + Join(sep, xs) + close
    decreases |xs|
  {
    var o := Opened(xs, open, close);
    if |xs| > 1 {
      var tail := Opened(xs[1..], "", close);
      assert o[1..] == tail;
      JoinOpened(xs[1..], sep, "", close);
      var j := Join(sep, xs[1..]);
      assert Join(sep, tail) == j + close;
      assert o[0] == open + xs[0];
      assert Join(sep, o) == (open + xs[0]) + sep + (j + close);
      assert Join(sep, xs) == xs[0] + sep + j;
      assert (open + xs[0]) + sep + (j + close) == open + (xs[0] + sep + j) + close;
    } else {
      assert o[0] == open + xs[0] + close;
    }
  }

  /** `pat` occurs nowhere in `s`. */
  ghost predicate Avoids(s: string, pat: string)
  {
    forall j :: !OccursAt(s, pat, j)
  }

  lemma AvoidsSuffix(a: string, b: string, pat: string)
    requires Avoids(a + b, pat)
    ensures Avoids(b, pat)
  {
    forall j ensures !OccursAt(b, pat, j) {
      if 0 <= j && j + |pat| <= |b| {
        assert (a + b)[|a| + j..|a| + j + |pat|] == b[j..j + |pat|];
        assert !OccursAt(a + b, pat, |a| + j);
      }
    }
  }

  /** A run of closing parentheses. */
  predicate Closers(close: string)
  {
    |close| >= 1 && forall k :: 0 <= k < |close| ==> close[k] == ')'
  }

  /** A part free of `close` cannot hide the start of `close,open` before its end. */
  lemma NoEarlyOfAvoids(p: string, open: string, close: string)
    requires Closers(close) && Avoids(p, close)
    ensures NoEarlySeparator(p, close + "," + open)
  {
    var sep := close + "," + open;
    var s := p + sep;
    assert sep[..|close|] == close && sep[|close|] == ',';
    forall j | 0 <= j < |p| ensures !OccursAt(s, sep, j) {
      if j + |sep| <= |s| {
        var w := s[j..j + |sep|];
        if j + |close| <= |p| {
          assert w[..|close|] == p[j..j + |close|];
          assert !OccursAt(p, close, j);
          assert w[..|close|] != sep[..|close|];
        } else {
          var q := j + |close|;
          assert w[|close|] == s[q] == sep[q - |p|] == close[q - |p|];
        }
      }
    }
  }

  /** The last part, followed by `close`, holds no `close,open`. */
  lemma LastOfAvoids(p: string, open: string, close: string)
    requires |open| == |close| && |close| >= 1 && Avoids(p, close)
    ensures Find(p + close, close + "," + open).None?
  {
    var sep := close + "," + open;
    var s := p + close;
    assert sep[..|close|] == close;
    forall j ensures !OccursAt(s, sep, j) {
      if 0 <= j && j + |sep| <= |s| {
        var w := s[j..j + |sep|];
        assert w[..|close|] == p[j..j + |close|];
        assert !OccursAt(p, close, j);
        assert w[..|close|] != sep[..|close|];
      }
    }
  }

  /**
   * explode('close,open') of parts wrapped in `open` and `close` and joined
   * with commas gives back the parts, the first still opened and the last
   * still closed, when no part (with `open` before it) holds `close`.
   */
  lemma ExplodeWrapped(xs: seq<string>, open: string, close: string)
    requires xs != [] && |open| == |close| && Closers(close)
    requires forall i :: 0 <= i < |xs| ==> Avoids(open + xs[i], close)
    ensures Explode(Join(",", Wrapped(xs, open, close)), close + "," + open) == Opened(xs, open, close)
  {
    var sep := close + "," + open;
    var o := Opened(xs, open, close);
    forall i | 0 <= i < |xs| ensures Avoids(xs[i], close) {
      AvoidsSuffix(open, xs[i], close);
    }
    forall i | 0 <= i < |xs| - 1 ensures NoEarlySeparator(o[i], sep) {
      if i == 0 {
        assert o[i] == open + xs[i];
      } else {
        assert o[i] == xs[i];
      }
      NoEarlyOfAvoids(o[i], open, close);
    }
    var n := |xs| - 1;
    var last := if n == 0 then open + xs[n] else xs[n];
    assert o[n] == last + close;
    LastOfAvoids(last, open, close);
    ExplodeJoin(o, sep);
    JoinOpened(xs, sep, open, close);
    JoinWrapped(xs, open, close);
  }

  /** No two closing parentheses in a row. */
  predicate SingleCloses(s: string)
  {
    forall j :: 0 <= j < |s| - 1 ==> !(s[j] == ')' && s[j + 1] == ')')
  }

  lemma SingleClosesConcat(a: string, b: string)
    requires SingleCloses(a) && SingleCloses(b)
    requires a != [] && b != [] && a[|a| - 1] == ')' ==> b[0] != ')'
    ensures SingleCloses(a + b)
  {
    var s := a + b;
    forall j | 0 <= j < |s| - 1 && s[j] == ')' ensures s[j + 1] != ')' {
      if j < |a| - 1 {
        assert s[j] == a[j] && s[j + 1] == a[j + 1];
      } else if j == |a| - 1 {
        assert s[j + 1] == b[0];
      } else {
        assert s[j] == b[j - |a|] && s[j + 1] == b[j - |a| + 1];
      }
    }
  }

  lemma SingleClosesAvoids(s: string)
    requires SingleCloses(s)
    ensures Avoids(s, "))")
  {
    forall j ensures !OccursAt(s, "))", j) {
      if 0 <= j && j + 2 <= |s| {
        assert s[j..j + 2][0] == s[j] && s[j..j + 2][1] == s[j + 1];
      }
    }
  }

  /** Parts without `)`, joined with `),(`. */
  lemma {:induction false} JoinSingleCloses(parts: seq<string>)
    requires forall i :: 0 <= i < |parts| ==> ')' !in parts[i] && parts[i] != []
    ensures SingleCloses(Join("),(", parts))
    decreases |parts|
  {
    if |parts| == 1 {
      assert SingleCloses(parts[0]);
    } else if |parts| > 1 {
      var rest := Join("),(", parts[1..]);
      JoinSingleCloses(parts[1..]);
      assert SingleCloses(parts[0]);
      SingleClosesConcat(parts[0], "),(");
      SingleClosesConcat(parts[0] + "),(", rest);
    }
  }

  // ------------------------------------------------------------------ numbers

  function DigitChar(d: nat): char
    requires d < 10
  {
    ('0' as int + d) as char
  }

  function DigitValue(c: char): nat
    requires IsDigit(c)
  {
    c as int - '0' as int
  }

  /** The decimal digits of a natural number. */
  function NatToString(n: nat): (r: string)
    ensures |r| >= 1 && forall i :: 0 <= i < |r| ==> IsDigit(r[i])
  {
    if n < 10 then [DigitChar(n)] else NatToString(n / 10) + [DigitChar(n % 10)]
  }

  /** PHP's text for a whole-valued float: an optional minus sign and the digits. */
  function IntToString(n: int): (r: string)
    ensures |r| >= 1 && (IsDigit(r[0]) || r[0] == '-') && IsDigit(r[|r| - 1])
    ensures forall i :: 0 <= i < |r| ==> IsDigit(r[i]) || (i == 0 && r[i] == '-')
  {
    if n < 0 then "-" + NatToString(-n) else NatToString(n)
  }

  /** The leading run of digits. */
  function DigitPrefix(s: string): (r: string)
    ensures |r| <= |s| && r == s[..|r|]
    ensures forall i :: 0 <= i < |r| ==> IsDigit(r[i])
    ensures |r| == |s| || !IsDigit(s[|r|])
  {
    if s != [] && IsDigit(s[0]) then [s[0]] + DigitPrefix(s[1..]) else []
  }

  function DecimalValue(ds: string): nat
    requires forall i :: 0 <= i < |ds| ==> IsDigit(ds[i])
  {
    if ds == [] then 0 else 10 * DecimalValue(ds[..|ds| - 1]) + DigitValue(ds[|ds| - 1])
  }

  /** The whitespace strtod and PHP's numeric strings allow before a number. */
  predicate IsNumberSpace(c: char)
  {
    c == ' ' || c == '\t' || c == '\n' || c == '\r' || c == VerticalTab || c == FormFeed
  }

  function SkipNumberSpace(s: string): (r: string)
    ensures |r| <= |s|
    ensures r == [] || !IsNumberSpace(r[0])
  {
    if s != [] && IsNumberSpace(s[0]) then SkipNumberSpace(s[1..]) else s
  }

  /** The sign and the leading digit run of `s` after leading whitespace. */
  function SignedDigits(s: string): (r: (bool, string))
    ensures forall i :: 0 <= i < |r.1| ==> IsDigit(r.1[i])
  {
    var t := SkipNumberSpace(s);
    if t != [] && (t[0] == '-' || t[0] == '+') then (t[0] == '-', DigitPrefix(t[1..]))
    else (false, DigitPrefix(t))
  }

  /**
   * floatval($s) on the integral values this model uses: leading whitespace,
   * an optional sign and the digits; text without a leading number is 0.
   */
  function FloatVal(s: string): int
  {
    var (negative, ds) := SignedDigits(s);
    var v: int := DecimalValue(ds);
    if negative then -v else v
  }

  /** An int parameter receiving text: a leading number is taken, anything else is a TypeError. */
  function IntParam(s: string): (r: Result<int>)
    ensures r.Ok? <==> |SignedDigits(s).1| > 0
  {
    var (negative, ds) := SignedDigits(s);
    var v: int := DecimalValue(ds);
    if ds == [] then Err(TypeError) else Ok(if negative then -v else v)
  }

  lemma {:induction false} DecimalOfNat(n: nat)
    ensures DecimalValue(NatToString(n)) == n
  {
    if n >= 10 {
      var r := NatToString(n);
      assert r[..|r| - 1] == NatToString(n / 10);
      DecimalOfNat(n / 10);
    }
  }

  lemma DigitPrefixAll(s: string)
    requires forall i :: 0 <= i < |s| ==> IsDigit(s[i])
    ensures DigitPrefix(s) == s
  {
    if s != [] {
      DigitPrefixAll(s[1..]);
    }
  }

  /** Reading a number back from its text gives the number. */
  lemma FloatValOfIntToString(n: int)
    ensures FloatVal(IntToString(n)) == n
    ensures IntParam(IntToString(n)) == Ok(n)
  {
    var s := IntToString(n);
    assert SkipNumberSpace(s) == s;
    if n < 0 {
      assert s[1..] == NatToString(-n);
      DigitPrefixAll(NatToString(-n));
      DecimalOfNat(-n);
    } else {
      DigitPrefixAll(s);
      DecimalOfNat(n);
    }
  }

  /** The digit run stops at the first character that is not a digit. */
  lemma {:induction false} DigitPrefixStop(ds: string, rest: string)
    requires forall i :: 0 <= i < |ds| ==> IsDigit(ds[i])
    requires rest != [] && !IsDigit(rest[0])
    ensures DigitPrefix(ds + rest) == ds
    decreases |ds|
  {
    if ds != [] {
      assert (ds + rest)[1..] == ds[1..] + rest;
      DigitPrefixStop(ds[1..], rest);
    }
  }

  /** The sign and digit run of a number's text followed by a character that is not a digit. */
  lemma SignedDigitsStop(n: int, rest: string)
    requires rest != [] && !IsDigit(rest[0])
    ensures SignedDigits(IntToString(n) + rest) == (n < 0, NatToString(if n < 0 then -n else n))
  {
    var s := IntToString(n) + rest;
    assert s[0] == IntToString(n)[0];
    assert SkipNumberSpace(s) == s;
    if n < 0 {
      assert s[1..] == NatToString(-n) + rest;
      DigitPrefixStop(NatToString(-n), rest);
    } else {
      DigitPrefixStop(NatToString(n), rest);
    }
  }

  /** floatval() of a number's text followed by `)` is the number. */
  lemma FloatValClosed(n: int)
    ensures FloatVal(IntToString(n) + ")") == n
  {
    SignedDigitsStop(n, ")");
    DecimalOfNat(if n < 0 then -n else n);
  }

  lemma FloatValNoDigits(s: string)
    requires s != [] && !IsNumberSpace(s[0]) && !IsDigit(s[0]) && s[0] != '-' && s[0] != '+'
    ensures FloatVal(s) == 0
  {
  }

  // ------------------------------------------------------------------- studly

  /** The characters Str::studly() separates words at: space, `-` and `_`. */
  predicate IsWordBreak(c: char)
  {
    c == ' ' || c == '-' || c == '_'
  }

  /**
   * The studly form of `s`, which follows a word break (or the start)
   * when `atStart` holds: breaks are dropped and the first letter of each
   * word is put in upper case.
   */
  function StudlyFrom(s: string, atStart: bool): (r: string)
    ensures |r| <= |s|
    ensures forall i :: 0 <= i < |r| ==> !IsWordBreak(r[i])
  {
    if s == [] then []
    else if IsWordBreak(s[0]) then StudlyFrom(s[1..], true)
    else [if atStart then UpperChar(s[0]) else s[0]] + StudlyFrom(s[1..], false)
  }

  /**
   * Str::studly: `-` and `_` become spaces, the text is exploded at
   * spaces, each word gets an upper-case first letter and the words are
   * joined without a separator; written here character by character.
   */
  function Studly(s: string): (r: string)
  {
    StudlyFrom(s, true)
  }
}
