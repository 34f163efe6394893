/** The sales-rep assignment filter, `customerBelongsToRep` (server.js:127-138):
    a customer belongs to a rep when the first `sales_reps` metafield, lower-cased,
    split on newline, comma or semicolon and trimmed, lists the rep's lower-cased
    email as one of its tokens. */
module SalesRepFilter {
  import opened Wrappers
  import opened Customers

  const SalesRepsKey: string := "sales_reps"

  /** The three separators of the split regex `/[\n,;]/`. */
  predicate IsDelimiter(c: char) {
    c == '\n' || c == ',' || c == ';'
  }

  /** A string with no separator in it. */
  predicate NoDelimiter(s: string) {
    forall k :: 0 <= k < |s| ==> !IsDelimiter(s[k])
  }

  /** The code points `String.prototype.trim` strips: ECMAScript's WhiteSpace
      (tab, vertical tab, form feed, space, no-break space, the byte order mark
      and the Unicode space separators) and LineTerminator (LF, CR, LS, PS). */
  predicate IsWhitespace(c: char) {
    c == '\t' || c == '\n' || c == '\U{000B}' || c == '\U{000C}' || c == '\r' || c == ' '
    || c == '\U{00A0}' || c == '\U{1680}' || ('\U{2000}' <= c <= '\U{200A}')
    || c == '\U{2028}' || c == '\U{2029}' || c == '\U{202F}' || c == '\U{205F}'
    || c == '\U{3000}' || c == '\U{FEFF}'
  }

  predicate IsUpperAscii(c: char) { 'A' <= c <= 'Z' }
  predicate IsLowerAscii(c: char) { 'a' <= c <= 'z' }

  /** `toLowerCase` on one character, for the ASCII letters. */
  function LowerChar(c: char): char {
    if IsUpperAscii(c) then (c as int + 32) as char else c
  }

  function UpperChar(c: char): char {
    if IsLowerAscii(c) then (c as int - 32) as char else c
  }

  /** `String.prototype.toLowerCase`, character by character. */
  function Lower(s: string): (r: string)
    ensures |r| == |s|
    ensures forall i :: 0 <= i < |r| ==> !IsUpperAscii(r[i])
    ensures forall i :: 0 <= i < |s| && !IsUpperAscii(s[i]) ==> r[i] == s[i]
  {
    seq(|s|, i requires 0 <= i < |s| => LowerChar(s[i]))
  }

  /** `s.split(/[\n,;]/)`: the pieces between delimiters, left to right; a string
      with d delimiters yields d + 1 pieces, empty ones included. */
  function Split(s: string): (r: seq<string>)
    ensures |r| >= 1
    ensures forall k, m :: 0 <= k < |r| && 0 <= m < |r[k]| ==> !IsDelimiter(r[k][m])
    decreases |s|
  {
    if s == [] then [""]
    else
      var rest := Split(s[1..]);
      if IsDelimiter(s[0]) then [""] + rest
      else [[s[0]] + rest[0]] + rest[1..]
  }

  /** `trimStart`: the suffix left after dropping the leading whitespace. */
  function TrimStart(s: string): (r: string)
    ensures |r| <= |s| && r == s[|s| - |r|..]
    ensures forall k :: 0 <= k < |s| - |r| ==> IsWhitespace(s[k])
    ensures r != [] ==> !IsWhitespace(r[0])
    decreases |s|
  {
    if s != [] && IsWhitespace(s[0]) then TrimStart(s[1..]) else s
  }

  /** `trimEnd`: the prefix left after dropping the trailing whitespace. */
  function TrimEnd(s: string): (r: string)
    ensures |r| <= |s| && r == s[..|r|]
    ensures forall k :: |r| <= k < |s| ==> IsWhitespace(s[k])
    ensures r != [] ==> !IsWhitespace(r[|r| - 1])
    decreases |s|
  {
    if s != [] && IsWhitespace(s[|s| - 1]) then TrimEnd(s[..|s| - 1]) else s
  }

  /** `String.prototype.trim`. */
  function Trim(s: string): (r: string)
    ensures |r| <= |s|
    ensures r != [] ==> !IsWhitespace(r[0]) && !IsWhitespace(r[|r| - 1])
    ensures (s == [] || (!IsWhitespace(s[0]) && !IsWhitespace(s[|s| - 1]))) ==> r == s
  {
    TrimEnd(TrimStart(s))
  }

  /** `nodes.find((m) => m.key === key)`, as the index of the element it finds. */
  function FindByKey(ms: seq<Metafield>, key: string): (r: Option<nat>)
    ensures r.Some? ==> r.value < |ms| && ms[r.value].key == key
    ensures r.Some? ==> forall k :: 0 <= k < r.value ==> ms[k].key != key
    ensures r.None? <==> forall k :: 0 <= k < |ms| ==> ms[k].key != key
    decreases |ms|
  {
    if ms == [] then None
    else if ms[0].key == key then Some(0)
    else
      match FindByKey(ms[1..], key)
      case None => None
      case Some(i) => Some(i + 1)
  }

  /** `customer.metafields?.nodes?.find((m) => m.key === "sales_reps")`. */
  function SalesRepsField(c: Customer): (r: Option<Metafield>)
    ensures r.Some? ==> c.metafields.Some? && r.value in c.metafields.value && r.value.key == SalesRepsKey
    ensures r.None? <==> c.metafields.None?
                         || forall k :: 0 <= k < |c.metafields.value| ==> c.metafields.value[k].key != SalesRepsKey
  {
    match c.metafields
    case None => None
    case Some(ms) =>
      match FindByKey(ms, SalesRepsKey)
      case None => None
      case Some(i) => Some(ms[i])
  }

  /** `value.toLowerCase().split(/[\n,;]/).map((v) => v.trim())`. */
  function Tokens(value: string): (r: seq<string>)
    ensures |r| == |Split(Lower(value))| >= 1
  {
    var parts := Split(Lower(value));
    seq(|parts|, i requires 0 <= i < |parts| => Trim(parts[i]))
  }

  /** The test applied to the value of the first `sales_reps` metafield. */
  predicate ValueMatches(value: Option<string>, repEmail: string)
    ensures ValueMatches(value, repEmail) ==> Truthy(value)
  {
    Truthy(value) && Lower(repEmail) in Tokens(value.value)
  }

  /** `customerBelongsToRep(customer, repEmail)`. */
  predicate BelongsToRep(c: Customer, repEmail: string)
    ensures BelongsToRep(c, repEmail) ==> SalesRepsField(c).Some? && Truthy(SalesRepsField(c).value.value)
    ensures c.metafields.None? ==> !BelongsToRep(c, repEmail)
    ensures (c.metafields.Some? && forall k :: 0 <= k < |c.metafields.value| ==> c.metafields.value[k].key != SalesRepsKey)
            ==> !BelongsToRep(c, repEmail)
  {
    var mf := SalesRepsField(c);
    mf.Some? && ValueMatches(mf.value.value, repEmail)
  }

  // ---------------------------------------------------------------------------
  // What the split produces, stated without the split

  /** `s[i..j]` is a token of `s`: it starts at the beginning or right after a
      delimiter, ends at the end or right before one, and holds no delimiter. */
  ghost predicate IsSegment(s: string, i: int, j: int) {
    0 <= i <= j <= |s|
    && (i == 0 || IsDelimiter(s[i - 1]))
    && (j == |s| || IsDelimiter(s[j]))
    && NoDelimiter(s[i..j])
  }

  /** The index of the first delimiter of `s`, or `|s|` when there is none. */
  function FirstDelimiter(s: string): (n: nat)
    ensures n <= |s| && (n < |s| ==> IsDelimiter(s[n]))
    ensures forall k :: 0 <= k < n ==> !IsDelimiter(s[k])
    decreases |s|
  {
    if s == [] || IsDelimiter(s[0]) then 0 else 1 + FirstDelimiter(s[1..])
  }

  /** The first piece of the split runs up to the first delimiter. */
  lemma {:induction false} SplitHead(s: string)
    ensures Split(s)[0] == s[..FirstDelimiter(s)]
    decreases |s|
  {
    if s != [] && !IsDelimiter(s[0]) {
      SplitHead(s[1..]);
      assert s[..FirstDelimiter(s)] == [s[0]] + s[1..][..FirstDelimiter(s[1..])];
    }
  }

  /** The only token that starts at index 0 is the first piece. */
  lemma SegmentAtStart(s: string, j: int)
    requires IsSegment(s, 0, j)
    ensures j == FirstDelimiter(s)
  {
  }

  /** Dropping the first character shifts every token one place to the left. */
  lemma SegmentShift(s: string, i: int, j: int)
    requires s != [] && 0 <= i <= j <= |s| - 1
    ensures IsSegment(s, i + 1, j + 1) <==> IsSegment(s[1..], i, j) && (i == 0 ==> IsDelimiter(s[0]))
    ensures s[i + 1..j + 1] == s[1..][i..j]
  {
    var t := s[1..];
    assert forall k :: 0 <= k < |t| ==> t[k] == s[k + 1];
    assert s[i + 1..j + 1] == t[i..j];
  }

  /** `t` is a token of `s` that starts at `lo` or later. */
  ghost predicate TokenFrom(s: string, t: string, lo: int) {
    exists i, j :: lo <= i && IsSegment(s, i, j) && s[i..j] == t
  }

  /** The tokens of `s` after its first character are those of `s[1..]` shifted
      by one; a token at index 1 of `s` needs a delimiter at index 0. */
  lemma ShiftTokensForward(s: string, t: string)
    requires s != [] && TokenFrom(s, t, 1)
    ensures TokenFrom(s[1..], t, if IsDelimiter(s[0]) then 0 else 1)
  {
    var i, j :| 1 <= i && IsSegment(s, i, j) && s[i..j] == t;
    SegmentShift(s, i - 1, j - 1);
    if !IsDelimiter(s[0]) {
      assert i != 1;
    }
    assert IsSegment(s[1..], i - 1, j - 1) && s[1..][i - 1..j - 1] == t;
  }

  lemma ShiftTokensBackward(s: string, t: string)
    requires s != [] && TokenFrom(s[1..], t, if IsDelimiter(s[0]) then 0 else 1)
    ensures TokenFrom(s, t, 1)
  {
    var lo := if IsDelimiter(s[0]) then 0 else 1;
    var i, j :| lo <= i && IsSegment(s[1..], i, j) && s[1..][i..j] == t;
    SegmentShift(s, i, j);
    assert 1 <= i + 1 && IsSegment(s, i + 1, j + 1) && s[i + 1..j + 1] == t;
  }

  /** The pieces after the first are exactly the tokens that start after a delimiter. */
  lemma {:induction false} SplitTailSegments(s: string, t: string)
    ensures t in Split(s)[1..] <==> exists i, j :: 1 <= i && IsSegment(s, i, j) && s[i..j] == t
    decreases |s|, 0
  {
    if s == [] {
      assert Split(s)[1..] == [];
    } else {
      if IsDelimiter(s[0]) {
        assert Split(s)[1..] == Split(s[1..]);
        SplitSegments(s[1..], t);
      } else {
        assert Split(s)[1..] == Split(s[1..])[1..];
        SplitTailSegments(s[1..], t);
      }
      if TokenFrom(s, t, 1) {
        ShiftTokensForward(s, t);
      }
      if TokenFrom(s[1..], t, if IsDelimiter(s[0]) then 0 else 1) {
        ShiftTokensBackward(s, t);
      }
    }
  }

  /** `split` returns exactly the tokens of `s`: a string is one of the pieces
      iff it is some maximal delimiter-free stretch of `s`. */
  lemma {:induction false} SplitSegments(s: string, t: string)
    ensures t in Split(s) <==> exists i, j :: IsSegment(s, i, j) && s[i..j] == t
    decreases |s|, 1
  {
    var r := Split(s);
    assert r == [r[0]] + r[1..];
    SplitHead(s);
    SplitTailSegments(s, t);
    assert IsSegment(s, 0, FirstDelimiter(s));
    if exists i, j :: IsSegment(s, i, j) && s[i..j] == t {
      var i, j :| IsSegment(s, i, j) && s[i..j] == t;
      if i == 0 {
        SegmentAtStart(s, j);
      }
    }
  }

  /** `s` is listed in `value`: some token of the lower-cased value, once trimmed, is `s`. */
  ghost predicate Listed(value: string, s: string) {
    exists i, j :: IsSegment(Lower(value), i, j) && Trim(Lower(value)[i..j]) == s
  }

  lemma TokensListed(value: string, s: string)
    ensures s in Tokens(value) <==> Listed(value, s)
  {
    var parts := Split(Lower(value));
    if s in Tokens(value) {
      var k :| 0 <= k < |parts| && Tokens(value)[k] == s;
      SplitSegments(Lower(value), parts[k]);
    }
    if Listed(value, s) {
      var i, j :| IsSegment(Lower(value), i, j) && Trim(Lower(value)[i..j]) == s;
      SplitSegments(Lower(value), Lower(value)[i..j]);
      var k :| 0 <= k < |parts| && parts[k] == Lower(value)[i..j];
      assert Tokens(value)[k] == s;
    }
  }

  /** `customerBelongsToRep` is true exactly when the first `sales_reps` metafield
      has a non-empty value and the rep's lower-cased email is, exactly, one trimmed
      token of that value's lower-cased text. */
  lemma BelongsToRepIffListed(c: Customer, repEmail: string)
    ensures BelongsToRep(c, repEmail) <==>
      match SalesRepsField(c)
      case None => false
      case Some(mf) => Truthy(mf.value) && Listed(mf.value.value, Lower(repEmail))
  {
    match SalesRepsField(c)
    case None =>
    case Some(mf) =>
      if Truthy(mf.value) {
        TokensListed(mf.value.value, Lower(repEmail));
      }
  }

  /** `find` stops at the first element with the key. */
  lemma FindByKeyAt(ms: seq<Metafield>, key: string, n: nat)
    requires n < |ms| && ms[n].key == key
    requires forall k :: 0 <= k < n ==> ms[k].key != key
    ensures FindByKey(ms, key) == Some(n)
  {
    var r := FindByKey(ms, key);
    assert r.Some?;
    assert !(r.value < n) && !(n < r.value);
  }

  /** Only the first `sales_reps` metafield is consulted: whatever follows it,
      and whatever other keys precede it, do not affect the outcome. */
  lemma FirstFieldDecides(c: Customer, before: seq<Metafield>, mf: Metafield, after: seq<Metafield>, repEmail: string)
    requires c.metafields == Some(before + [mf] + after)
    requires forall k :: 0 <= k < |before| ==> before[k].key != SalesRepsKey
    requires mf.key == SalesRepsKey
    ensures BelongsToRep(c, repEmail) == ValueMatches(mf.value, repEmail)
  {
    var ms := before + [mf] + after;
    assert ms[|before|] == mf;
    assert forall k :: 0 <= k < |before| ==> ms[k] == before[k];
    FindByKeyAt(ms, SalesRepsKey, |before|);
    assert SalesRepsField(c) == Some(mf);
  }

  /** Trimming a delimiter-free stretch leaves a delimiter-free string with no
      whitespace at either end. */
  lemma TrimmedSegment(seg: string)
    requires NoDelimiter(seg)
    ensures NoDelimiter(Trim(seg))
    ensures Trim(seg) != [] ==> !IsWhitespace(Trim(seg)[0]) && !IsWhitespace(Trim(seg)[|Trim(seg)| - 1])
  {
    var t := Trim(seg);
    var a := |seg| - |TrimStart(seg)|;
    assert t == seg[a..a + |t|];
    forall k | 0 <= k < |t| ensures !IsDelimiter(t[k]) {
      assert t[k] == seg[a + k];
    }
  }

  /** Lower-casing turns no character into, or out of, a delimiter or whitespace. */
  lemma LowerCharKeepsClass(c: char)
    ensures IsDelimiter(LowerChar(c)) == IsDelimiter(c)
    ensures IsWhitespace(LowerChar(c)) == IsWhitespace(c)
  {
  }

  lemma CleanUnderLower(s: string)
    requires forall k :: 0 <= k < |Lower(s)| ==> !IsDelimiter(Lower(s)[k])
    requires Lower(s) != [] ==> !IsWhitespace(Lower(s)[0]) && !IsWhitespace(Lower(s)[|s| - 1])
    ensures forall k :: 0 <= k < |s| ==> !IsDelimiter(s[k])
    ensures s != [] ==> !IsWhitespace(s[0]) && !IsWhitespace(s[|s| - 1])
  {
    forall k | 0 <= k < |s| ensures !IsDelimiter(s[k]) {
      LowerCharKeepsClass(s[k]);
      assert Lower(s)[k] == LowerChar(s[k]);
    }
    if s != [] {
      assert Lower(s)[0] == LowerChar(s[0]);
      LowerCharKeepsClass(s[0]);
      LowerCharKeepsClass(s[|s| - 1]);
    }
  }

  /** The trim of a token holds no delimiter and has no whitespace at either end. */
  lemma TrimmedTokenIsClean(s: string, i: int, j: int)
    requires IsSegment(s, i, j)
    ensures forall k :: 0 <= k < |Trim(s[i..j])| ==> !IsDelimiter(Trim(s[i..j])[k])
    ensures Trim(s[i..j]) != [] ==> !IsWhitespace(Trim(s[i..j])[0]) && !IsWhitespace(Trim(s[i..j])[|Trim(s[i..j])| - 1])
  {
    var seg := s[i..j];
    forall k | 0 <= k < |seg| ensures !IsDelimiter(seg[k]) {
      assert seg[k] == s[i + k];
    }
    TrimmedSegment(seg);
  }

  /** A listed string holds no delimiter and has no whitespace at either end. */
  lemma ListedIsClean(value: string, s: string)
    requires Listed(value, s)
    ensures forall k :: 0 <= k < |s| ==> !IsDelimiter(s[k])
    ensures s != [] ==> !IsWhitespace(s[0]) && !IsWhitespace(s[|s| - 1])
  {
    var i, j :| IsSegment(Lower(value), i, j) && Trim(Lower(value)[i..j]) == s;
    TrimmedTokenIsClean(Lower(value), i, j);
  }

  /** A rep that matches carries no delimiter and no surrounding whitespace, since
      the rep's email itself is not trimmed. That only whole tokens match is
      `BelongsToRepIffListed`. */
  lemma MatchedRepIsWholeToken(value: string, repEmail: string)
    requires ValueMatches(Some(value), repEmail)
    ensures forall k :: 0 <= k < |repEmail| ==> !IsDelimiter(repEmail[k])
    ensures repEmail != [] ==> !IsWhitespace(repEmail[0]) && !IsWhitespace(repEmail[|repEmail| - 1])
  {
    TokensListed(value, Lower(repEmail));
    ListedIsClean(value, Lower(repEmail));
    CleanUnderLower(repEmail);
  }

  // ---------------------------------------------------------------------------
  // Case does not matter

  /** `b` is `a` with the case of some ASCII letters changed. */
  ghost predicate CaseVariant(a: string, b: string) {
    |a| == |b| &&
    forall i :: 0 <= i < |a| ==> b[i] == a[i] || b[i] == UpperChar(a[i]) || b[i] == LowerChar(a[i])
  }

  lemma CaseVariantLower(a: string, b: string)
    requires CaseVariant(a, b)
    ensures Lower(a) == Lower(b)
  {
    forall i | 0 <= i < |a| ensures Lower(a)[i] == Lower(b)[i] {
      assert b[i] == a[i] || b[i] == UpperChar(a[i]) || b[i] == LowerChar(a[i]);
    }
  }

  /** Changing the case of letters in the rep's email never changes the outcome. */
  lemma RepCaseIrrelevant(c: Customer, repEmail: string, variant: string)
    requires CaseVariant(repEmail, variant)
    ensures BelongsToRep(c, repEmail) == BelongsToRep(c, variant)
  {
    CaseVariantLower(repEmail, variant);
  }

  /** Changing the case of letters in the metafield value never changes the outcome. */
  lemma ValueCaseIrrelevant(value: string, variant: string, repEmail: string)
    requires CaseVariant(value, variant)
    ensures ValueMatches(Some(value), repEmail) == ValueMatches(Some(variant), repEmail)
  {
    CaseVariantLower(value, variant);
  }

  // ---------------------------------------------------------------------------
  // A worked assignment field

  /** A delimiter-free string splits into itself. */
  lemma {:induction false} SplitNoDelimiter(a: string)
    requires NoDelimiter(a)
    ensures Split(a) == [a]
    decreases |a|
  {
    if a != [] {
      SplitNoDelimiter(a[1..]);
      assert [a[0]] + a[1..] == a;
    }
  }

  /** Splitting at the first delimiter: the piece before it, then the split of the rest. */
  lemma {:induction false} SplitAtDelimiter(a: string, d: char, b: string)
    requires NoDelimiter(a)
    requires IsDelimiter(d)
    ensures Split(a + [d] + b) == [a] + Split(b)
    decreases |a|
  {
    if a == [] {
      assert (a + [d] + b)[1..] == b;
    } else {
      assert (a + [d] + b)[1..] == a[1..] + [d] + b;
      SplitAtDelimiter(a[1..], d, b);
      assert [a[0]] + a[1..] == a;
    }
  }

  lemma LowerConcat(a: string, b: string)
    ensures Lower(a + b) == Lower(a) + Lower(b)
  {
  }

  const ExampleField: string := "Rep.One@x.com; rep.two@x.com\nrep.three@x.com"

  lemma LowerOfPieces(a: string, d: char, b: string, e: char, c: string)
    ensures Lower(a + [d] + b + [e] + c) == Lower(a) + [LowerChar(d)] + Lower(b) + [LowerChar(e)] + Lower(c)
  {
    LowerConcat(a + [d] + b + [e], c);
    LowerConcat(a + [d] + b, [e]);
    LowerConcat(a + [d], b);
    LowerConcat(a, [d]);
  }

  const ExampleRepOne: string := "Rep.One@x.com"
  const ExampleRepTwo: string := " rep.two@x.com"
  const ExampleRepThree: string := "rep.three@x.com"

  lemma ExampleFieldPieces()
    ensures ExampleField == ExampleRepOne + [';'] + ExampleRepTwo + ['\n'] + ExampleRepThree
  {
  }

  lemma ExampleLowerOne()
    ensures Lower(ExampleRepOne) == ExampleOneLower
  {
  }

  lemma ExampleLowerTwo()
    ensures Lower(ExampleRepTwo) == ExampleRepTwo
  {
  }

  lemma ExampleLowerThree()
    ensures Lower(ExampleRepThree) == ExampleRepThree
  {
  }

  lemma WorkedExampleLower()
    ensures Lower(ExampleField) == ExampleOneLower + [';'] + ExampleRepTwo + ['\n'] + ExampleRepThree
  {
    ExampleFieldPieces();
    ExampleLowerOne();
    ExampleLowerTwo();
    ExampleLowerThree();
    LowerOfPieces(ExampleRepOne, ';', ExampleRepTwo, '\n', ExampleRepThree);
  }

  lemma SplitThree(a: string, d: char, b: string, e: char, c: string)
    requires NoDelimiter(a) && NoDelimiter(b) && NoDelimiter(c)
    requires IsDelimiter(d) && IsDelimiter(e)
    ensures Split(a + [d] + b + [e] + c) == [a, b, c]
  {
    SplitNoDelimiter(c);
    SplitAtDelimiter(b, e, c);
    SplitAtDelimiter(a, d, b + [e] + c);
    assert a + [d] + b + [e] + c == a + [d] + (b + [e] + c);
  }

  const ExampleOneLower: string := "rep.one@x.com"

  lemma ExampleOneNoDelimiter()
    ensures NoDelimiter(ExampleOneLower)
  {
  }

  lemma ExampleOneTrim()
    ensures Trim(ExampleOneLower) == ExampleOneLower
  {
    assert !IsWhitespace(ExampleOneLower[0]);
    assert TrimStart(ExampleOneLower) == ExampleOneLower;
    assert !IsWhitespace(ExampleOneLower[|ExampleOneLower| - 1]);
  }

  lemma ExampleTwoNoDelimiter()
    ensures NoDelimiter(ExampleRepTwo)
  {
  }

  const ExampleTwoLower: string := "rep.two@x.com"

  lemma ExampleTwoTail()
    ensures ExampleRepTwo[0] == ' ' && ExampleRepTwo[1..] == ExampleTwoLower
  {
  }

  lemma ExampleTwoTrim()
    ensures Trim(ExampleRepTwo) == ExampleTwoLower
  {
    ExampleTwoTail();
    assert !IsWhitespace(ExampleTwoLower[0]);
    assert TrimStart(ExampleTwoLower) == ExampleTwoLower;
    assert TrimStart(ExampleRepTwo) == ExampleTwoLower;
    assert !IsWhitespace(ExampleTwoLower[|ExampleTwoLower| - 1]);
  }

  lemma ExampleThreeNoDelimiter()
    ensures NoDelimiter(ExampleRepThree)
  {
  }

  lemma ExampleThreeTrim()
    ensures Trim(ExampleRepThree) == ExampleRepThree
  {
    assert !IsWhitespace(ExampleRepThree[0]);
    assert TrimStart(ExampleRepThree) == ExampleRepThree;
    assert !IsWhitespace(ExampleRepThree[|ExampleRepThree| - 1]);
  }

  lemma WorkedExampleSplit()
    ensures Split(Lower(ExampleField)) == [ExampleOneLower, ExampleRepTwo, ExampleRepThree]
  {
    WorkedExampleLower();
    ExampleOneNoDelimiter();
    ExampleTwoNoDelimiter();
    ExampleThreeNoDelimiter();
    SplitThree(ExampleOneLower, ';', ExampleRepTwo, '\n', ExampleRepThree);
  }

  lemma TokensOfThree(value: string, a: string, b: string, c: string)
    requires Split(Lower(value)) == [a, b, c]
    ensures Tokens(value) == [Trim(a), Trim(b), Trim(c)]
  {
  }

  lemma WorkedExampleTokens()
    ensures Tokens(ExampleField) == [ExampleOneLower, ExampleTwoLower, ExampleRepThree]
  {
    WorkedExampleSplit();
    TokensOfThree(ExampleField, ExampleOneLower, ExampleRepTwo, ExampleRepThree);
    ExampleOneTrim();
    ExampleTwoTrim();
    ExampleThreeTrim();
  }

  /** The assignment field "Rep.One@x.com; rep.two@x.com\nrep.three@x.com" belongs
      to exactly the reps whose lower-cased email is one of its three addresses. */
  lemma WorkedExample(c: Customer, repEmail: string)
    requires c.metafields == Some([Metafield(SalesRepsKey, Some(ExampleField))])
    ensures BelongsToRep(c, repEmail) <==>
            Lower(repEmail) in ["rep.one@x.com", "rep.two@x.com", "rep.three@x.com"]
  {
    WorkedExampleTokens();
    assert SalesRepsField(c) == Some(Metafield(SalesRepsKey, Some(ExampleField)));
  }

  lemma ExampleRepsOneTwoLower()
    ensures Lower("REP.ONE@X.COM") == "rep.one@x.com"
    ensures Lower("rep.two@x.com") == "rep.two@x.com"
  {
  }

  lemma ExampleRepsThreeFourLower()
    ensures Lower("Rep.Three@x.com") == "rep.three@x.com"
    ensures Lower("rep.four@x.com") == "rep.four@x.com"
  {
  }

  /** The worked field matches "REP.ONE@X.COM", "rep.two@x.com" and
      "Rep.Three@x.com", and rejects "rep.four@x.com". */
  lemma WorkedExampleReps(c: Customer)
    requires c.metafields == Some([Metafield(SalesRepsKey, Some(ExampleField))])
    ensures BelongsToRep(c, "REP.ONE@X.COM") && BelongsToRep(c, "rep.two@x.com")
    ensures BelongsToRep(c, "Rep.Three@x.com") && !BelongsToRep(c, "rep.four@x.com")
  {
    ExampleRepsOneTwoLower();
    ExampleRepsThreeFourLower();
    WorkedExample(c, "REP.ONE@X.COM");
    WorkedExample(c, "rep.two@x.com");
    WorkedExample(c, "Rep.Three@x.com");
    WorkedExample(c, "rep.four@x.com");
  }
}
