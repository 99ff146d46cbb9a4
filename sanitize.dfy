/** The item service's input sanitisers
    (infrastructure/functions/portfolio/handler.js): free text, links,
    tags, storage keys and upload file names. */
module Sanitize {
  import opened Js
  import opened Wrappers

  /** `maxLength || 500` in sanitizeString */
  const DefaultMaxLength: nat := 500
  /** `str.slice(0, 500)` in sanitizeUrl */
  const MaxUrlLength: nat := 500
  /** `.slice(0, 40)` in sanitizeTag */
  const MaxTagLength: nat := 40
  /** `path.extname(...).slice(0, 10)` in sanitizeFilename */
  const MaxExtLength: nat := 10

  /** `p` is a prefix of `s`. */
  predicate IsPrefix(p: string, s: string) {
    |p| <= |s| && s[..|p|] == p
  }

  // ---------------------------------------------------------------------
  // sanitizeString and sanitizeUrl

  /** sanitizeString(value, maxLength): `None` is `undefined`, returned for
      null and undefined; whitespace-only text becomes ''; anything else is
      the trimmed text of `String(value)` cut to `maxLength` (500 when 0). */
  function SanitizeString(v: Value, maxLength: nat): (r: Option<string>)
    ensures r.None? <==> Nullish(v)
    ensures r.Some? ==> (r.value == "" <==> AllSpace(ToStr(v)))
    ensures r.Some? ==> IsPrefix(r.value, Trim(ToStr(v)))
    ensures r.Some? ==> |r.value| <= (if maxLength == 0 then DefaultMaxLength else maxLength)
    ensures r.Some? && |r.value| < (if maxLength == 0 then DefaultMaxLength else maxLength) ==>
              r.value == Trim(ToStr(v))
  {
    if Nullish(v) then None
    else
      var str := Trim(ToStr(v));
      if str == "" then Some("")
      else Some(SliceTo(str, if maxLength == 0 then DefaultMaxLength else maxLength))
  }

  /** `/^https?:\/\//i.test(s)` (the `i` flag folds ASCII letters only). */
  predicate HasHttpScheme(s: string) {
    (|s| >= 7 && ToLowerAscii(s[..7]) == "http://") ||
    (|s| >= 8 && ToLowerAscii(s[..8]) == "https://")
  }

  /** sanitizeUrl(value): the trimmed text cut to 500 characters when it
      starts with http:// or https:// in any letter case, else `None`. */
  function SanitizeUrl(v: Value): (r: Option<string>)
    ensures r.Some? <==> Truthy(v) && HasHttpScheme(Trim(ToStr(v)))
    ensures r.Some? ==> HasHttpScheme(r.value) && |r.value| <= MaxUrlLength
    ensures r.Some? ==> IsPrefix(r.value, Trim(ToStr(v)))
    ensures r.Some? && |r.value| < MaxUrlLength ==> r.value == Trim(ToStr(v))
  {
    if !Truthy(v) then None
    else
      var str := Trim(ToStr(v));
      if str == "" then None
      else if !HasHttpScheme(str) then None
      else
        var r := SliceTo(str, MaxUrlLength);
        assert r[..7] == str[..7];
        assert |str| >= 8 ==> r[..8] == str[..8];
        Some(r)
  }

  // ---------------------------------------------------------------------
  // sanitizeTag and normalizeTags

  predicate IsAsciiLetter(c: char) {
    IsUpperAscii(c) || IsLowerAscii(c)
  }

  /** The characters `/[^a-z0-9\- ]/gi` keeps. */
  predicate IsTagSourceChar(c: char) {
    IsAsciiLetter(c) || IsDigit(c) || c == '-' || c == ' '
  }

  /** The characters a stored tag is made of. */
  predicate IsTagChar(c: char) {
    IsLowerAscii(c) || IsDigit(c) || c == '-'
  }

  /** A normalised tag: non-empty, at most 40 characters of [a-z0-9-]. */
  predicate IsTag(t: string) {
    0 < |t| <= MaxTagLength && forall i :: 0 <= i < |t| ==> IsTagChar(t[i])
  }

  /** `s.replace(/[^a-z0-9\- ]/gi, '')` */
  function KeepTagSource(s: string): (r: string)
    ensures forall i :: 0 <= i < |r| ==> IsTagSourceChar(r[i])
  {
    if s == [] then []
    else (if IsTagSourceChar(s[0]) then [s[0]] else []) + KeepTagSource(s[1..])
  }

  /** Text made only of kept characters passes unchanged. */
  lemma {:induction false} KeepTagSourceKeepsAll(s: string)
    requires forall i :: 0 <= i < |s| ==> IsTagSourceChar(s[i])
    ensures KeepTagSource(s) == s
  {
    if s != [] {
      KeepTagSourceKeepsAll(s[1..]);
      assert [s[0]] + s[1..] == s;
    }
  }

  /** ASCII letters, digits and '-': what is left after
      `/[^a-z0-9\- ]/gi` and `/\s+/g`, and what `/[^a-z0-9\-]+/gi` keeps. */
  predicate IsSlugChar(c: char) {
    IsAsciiLetter(c) || IsDigit(c) || c == '-'
  }

  /** `s.replace(/\s+/g, '-')`: a whitespace character followed by another
      one is dropped, the last one of each run becomes '-'. */
  function HyphenateSpaces(s: string): (r: string)
    ensures forall i :: 0 <= i < |r| ==> !IsSpace(r[i])
  {
    if s == [] then []
    else if !IsSpace(s[0]) then [s[0]] + HyphenateSpaces(s[1..])
    else if |s| > 1 && IsSpace(s[1]) then HyphenateSpaces(s[1..])
    else "-" + HyphenateSpaces(s[1..])
  }

  /** After the first filter only ASCII letters, digits and '-' remain. */
  lemma {:induction false} HyphenateSpacesSlug(s: string)
    requires forall i :: 0 <= i < |s| ==> IsTagSourceChar(s[i])
    ensures forall i :: 0 <= i < |HyphenateSpaces(s)| ==> IsSlugChar(HyphenateSpaces(s)[i])
  {
    if s != [] {
      HyphenateSpacesSlug(s[1..]);
    }
  }

  /** Text without whitespace passes unchanged. */
  lemma {:induction false} HyphenateSpacesKeepsUnspaced(s: string)
    requires forall i :: 0 <= i < |s| ==> !IsSpace(s[i])
    ensures HyphenateSpaces(s) == s
  {
    if s != [] {
      HyphenateSpacesKeepsUnspaced(s[1..]);
      assert [s[0]] + s[1..] == s;
    }
  }

  /** sanitizeTag(value): '' for a falsy value other than 0 and for
      whitespace; otherwise the trimmed text without the characters outside
      [A-Za-z0-9- ], with each run of whitespace turned into '-', cut to 40
      characters and lower-cased. */
  function SanitizeTag(v: Value): string {
    if !Truthy(v) && v != Num(0) then ""
    else
      var str := Trim(ToStr(v));
      if str == "" then ""
      else ToLowerAscii(SliceTo(HyphenateSpaces(KeepTagSource(str)), MaxTagLength))
  }

  /** A sanitised tag is '' or at most 40 characters of [a-z0-9-]. */
  lemma SanitizeTagIsTag(v: Value)
    ensures SanitizeTag(v) == "" || IsTag(SanitizeTag(v))
  {
    if Truthy(v) || v == Num(0) {
      var str := Trim(ToStr(v));
      if str != "" {
        HyphenateSpacesSlug(KeepTagSource(str));
      }
    }
  }

  /** An already normalised tag comes back unchanged. */
  lemma SanitizeTagKeepsTag(t: string)
    requires IsTag(t)
    ensures SanitizeTag(Str(t)) == t
  {
    assert !IsSpace(t[0]) && !IsSpace(t[|t| - 1]);
    assert Trim(t) == t;
    TagFiltersKeepTag(t);
  }

  /** The character filters, the cut and the lower-casing leave a tag as it is. */
  lemma TagFiltersKeepTag(t: string)
    requires IsTag(t)
    ensures ToLowerAscii(SliceTo(HyphenateSpaces(KeepTagSource(t)), MaxTagLength)) == t
  {
    KeepTagSourceKeepsAll(t);
    HyphenateSpacesKeepsUnspaced(t);
    assert ToLowerAscii(t) == t;
  }

  /** Sanitising the result of a sanitisation changes nothing. */
  lemma SanitizeTagIdempotent(v: Value)
    ensures SanitizeTag(Str(SanitizeTag(v))) == SanitizeTag(v)
  {
    var t := SanitizeTag(v);
    if t != "" {
      SanitizeTagIsTag(v);
      SanitizeTagKeepsTag(t);
    }
  }

  /** The tags of a list of values, in order, without the empty ones
      (`value.map(v => sanitizeTag(v)).filter(Boolean)`). */
  function SanitizeTags(vs: seq<Value>): (tags: seq<string>)
    ensures |tags| <= |vs|
  {
    if vs == [] then []
    else
      var t := SanitizeTag(vs[0]);
      (if t == "" then [] else [t]) + SanitizeTags(vs[1..])
  }

  /** Every entry kept is a well-formed tag; in particular none is empty. */
  lemma {:induction false} SanitizeTagsAreTags(vs: seq<Value>)
    ensures forall t :: t in SanitizeTags(vs) ==> IsTag(t)
  {
    if vs != [] {
      SanitizeTagIsTag(vs[0]);
      SanitizeTagsAreTags(vs[1..]);
    }
  }

  function StrValues(parts: seq<string>): (vs: seq<Value>)
    ensures |vs| == |parts|
    ensures forall i :: 0 <= i < |parts| ==> vs[i] == Str(parts[i])
  {
    seq(|parts|, i requires 0 <= i < |parts| => Str(parts[i]))
  }

  /** normalizeTags(value): [] for a falsy value; an array is sanitised
      element by element; anything else is `String(value)` split on ','. */
  function NormalizeTags(v: Value): seq<string> {
    if !Truthy(v) then []
    else if v.Arr? then SanitizeTags(v.elems)
    else SanitizeTags(StrValues(Split(ToStr(v), ',')))
  }

  /** normalizeTags gives [] for a falsy value and otherwise a list of
      well-formed tags, none of them empty. */
  lemma NormalizeTagsAreTags(v: Value)
    ensures !Truthy(v) ==> NormalizeTags(v) == []
    ensures forall t :: t in NormalizeTags(v) ==> IsTag(t)
  {
    if Truthy(v) {
      if v.Arr? {
        SanitizeTagsAreTags(v.elems);
      } else {
        SanitizeTagsAreTags(StrValues(Split(ToStr(v), ',')));
      }
    }
  }

  lemma {:induction false} SanitizeTagsKeepsTags(tags: seq<string>)
    requires forall t :: t in tags ==> IsTag(t)
    ensures SanitizeTags(StrValues(tags)) == tags
  {
    if tags != [] {
      var t0, rest := tags[0], tags[1..];
      assert IsTag(t0) by {
        assert t0 in tags;
      }
      assert forall t :: t in rest ==> t in tags;
      SanitizeTagsKeepsTags(rest);
      SanitizeTagsConsTag(t0, rest);
      assert tags == [t0] + rest;
    }
  }

  /** A well-formed tag in front of a list survives sanitising. */
  lemma SanitizeTagsConsTag(t0: string, rest: seq<string>)
    requires IsTag(t0)
    ensures SanitizeTags(StrValues([t0] + rest)) == [t0] + SanitizeTags(StrValues(rest))
  {
    var vs := StrValues([t0] + rest);
    SanitizeTagKeepsTag(t0);
    assert vs[0] == Str(t0);
    assert vs[1..] == StrValues(rest);
  }

  /** normalizeTags is idempotent: an already normalised list, sent back
      either as an array or as the comma-joined string, is returned as is. */
  lemma NormalizeTagsIdempotent(tags: seq<string>)
    requires forall t :: t in tags ==> IsTag(t)
    ensures NormalizeTags(Arr(StrValues(tags))) == tags
    ensures NormalizeTags(Str(Join(tags, ","))) == tags
  {
    SanitizeTagsKeepsTags(tags);
    if tags != [] {
      var joined := Join(tags, ",");
      assert forall t :: t in tags ==> ',' !in t;
      assert Split(joined, ',') == tags by {
        SplitJoin(tags, ',');
      }
      assert joined != "" by {
        assert tags[0] in tags;
      }
      assert NormalizeTags(Str(joined)) == SanitizeTags(StrValues(tags));
    }
  }

  // Steps of NormalizeTagsExample below: the stages of sanitizeTag on the
  // two pieces of "Node.js, CLI ", each evaluated on its own so that no
  // single proof has to unfold the whole pipeline on a literal.

  lemma NodeJsKept()
    ensures KeepTagSource("Node.js") == "Nodejs"
  {
  }

  lemma NodeJsHyphenated()
    ensures HyphenateSpaces("Nodejs") == "Nodejs"
  {
  }

  lemma NodeJsLowered()
    ensures ToLowerAscii("Nodejs") == "nodejs"
  {
  }

  lemma CliTrimmed()
    ensures Trim(" CLI ") == "CLI"
  {
  }

  lemma CliLowered()
    ensures KeepTagSource("CLI") == "CLI" && HyphenateSpaces("CLI") == "CLI" && ToLowerAscii("CLI") == "cli"
  {
  }

  lemma NodeJsTag(v: Value)
    requires v == Str("Node.js")
    ensures SanitizeTag(v) == "nodejs"
  {
    assert Trimmed("Node.js");
    NodeJsKept();
    NodeJsHyphenated();
    NodeJsLowered();
  }

  lemma CliTag(v: Value)
    requires v == Str(" CLI ")
    ensures SanitizeTag(v) == "cli"
  {
    CliTrimmed();
    CliLowered();
  }

  lemma ExampleSplit(input: string)
    requires input == "Node.js, CLI "
    ensures Split(input, ',') == ["Node.js", " CLI "]
  {
    var first, second := "Node.js", " CLI ";
    assert input == first + [','] + second;
    assert ',' !in first && ',' !in second;
    SplitAfterPiece(first, second, ',');
    SplitNoSeparator(second, ',');
  }

  /** Two values that both give a tag give those two tags, in order. */
  lemma SanitizeTagsPair(u: Value, w: Value)
    requires SanitizeTag(u) != "" && SanitizeTag(w) != ""
    ensures SanitizeTags([u, w]) == [SanitizeTag(u), SanitizeTag(w)]
  {
    assert [u, w][1..] == [w];
    assert [w][1..] == [];
  }

  /** "Node.js, CLI " normalises to ["nodejs", "cli"]. */
  lemma NormalizeTagsExample(input: string)
    requires input == "Node.js, CLI "
    ensures NormalizeTags(Str(input)) == ["nodejs", "cli"]
  {
    ExampleSplit(input);
    var vs := StrValues(Split(input, ','));
    var u, w := vs[0], vs[1];
    assert vs == [u, w];
    NodeJsTag(u);
    CliTag(w);
    SanitizeTagsPair(u, w);
  }

  // ---------------------------------------------------------------------
  // sanitizeKey

  /** sanitizeKey(value): `None` for null and undefined, otherwise the
      trimmed text without its leading '/' characters. */
  function SanitizeKey(v: Value): (r: Option<string>)
    ensures r.None? <==> Nullish(v)
    ensures r.Some? ==> r.value == [] || r.value[0] != '/'
    ensures r.Some? ==>
              var str := Trim(ToStr(v));
              |r.value| <= |str| && r.value == str[|str| - |r.value|..] &&
              forall i :: 0 <= i < |str| - |r.value| ==> str[i] == '/'
  {
    if Nullish(v) then None
    else
      var str := Trim(ToStr(v));
      var r := StripLeading(str, '/');
      assert r == str[|str| - |r|..];
      Some(r)
  }

  // ---------------------------------------------------------------------
  // sanitizeFilename (with Node's path.posix.extname and path.basename)

  /** `s` ends with `t`. */
  predicate IsSuffix(t: string, s: string) {
    |t| <= |s| && s[|s| - |t|..] == t
  }

  /** The part of `s` after its last `c` (all of `s` when there is none). */
  function AfterLast(s: string, c: char): (r: string)
    ensures IsSuffix(r, s)
    ensures forall i :: 0 <= i < |r| ==> r[i] != c
    ensures |r| < |s| ==> s[|s| - |r| - 1] == c
  {
    if s == [] then []
    else if s[|s| - 1] == c then []
    else
      var r := AfterLast(s[..|s| - 1], c);
      assert s[|s| - 1 - |r| .. |s| - 1] == r;
      r + [s[|s| - 1]]
  }

  /** The last path segment, trailing '/' characters ignored. */
  function LastSegment(p: string): (b: string)
    ensures forall i :: 0 <= i < |b| ==> b[i] != '/'
    ensures IsSuffix(b, StripTrailing(p, '/'))
  {
    AfterLast(StripTrailing(p, '/'), '/')
  }

  /** The extension of one path segment `b`: from its last '.' to its
      end; '' when `b` has no '.', when its last '.' is its first character
      (a dot file) and when `b` is '..'. */
  function SegmentExt(b: string): (e: string)
    ensures e != [] ==> e[0] == '.' && forall i :: 1 <= i < |e| ==> e[i] != '.'
    ensures e != [] ==> IsSuffix(e, b) && |e| < |b|
  {
    var afterDot := AfterLast(b, '.');
    // when |afterDot| < |b| - 1 holds, a '..' segment is one of length 2
    // that starts with '.'
    if |afterDot| >= |b| - 1 || (|b| == 2 && b[0] == '.') then []
    else
      var e := b[|b| - |afterDot| - 1..];
      assert forall i :: 1 <= i < |e| ==> e[i] == afterDot[i - 1];
      e
  }

  /** path.extname(p): the extension of the last segment. */
  function ExtName(p: string): (e: string)
    ensures e != [] ==> e[0] == '.' && forall i :: 1 <= i < |e| ==> e[i] != '.'
    ensures e != [] ==> IsSuffix(e, LastSegment(p)) && |e| < |LastSegment(p)|
  {
    SegmentExt(LastSegment(p))
  }

  /** path.basename(p, ext): the last segment, without `ext` when it ends
      with `ext` and is longer than it; '' when `ext` is all of `p`; with
      `p`'s trailing '/' characters when the segment is a proper suffix of
      `ext`. */
  function BaseName(p: string, ext: string): (r: string)
    ensures (ext == [] || |ext| > |p|) ==> r == LastSegment(p)
    ensures ext != [] && ext == p ==> r == []
    ensures 0 < |ext| < |LastSegment(p)| && IsSuffix(ext, LastSegment(p)) ==>
              r == LastSegment(p)[..|LastSegment(p)| - |ext|]
  {
    var t := StripTrailing(p, '/');
    var b := AfterLast(t, '/');
    if ext == [] || |ext| > |p| then b
    else if ext == p then []
    else if IsSuffix(ext, b) then (if ext == b then b else b[..|b| - |ext|])
    else if IsSuffix(b, ext) then b + p[|t|..]
    else b
  }

  /** `s.replace(/[^a-z0-9\-]+/gi, '-')`: each run of other characters
      becomes one '-'. */
  function ReplaceUnsafeRuns(s: string): (r: string)
    ensures forall i :: 0 <= i < |r| ==> IsSlugChar(r[i])
  {
    if s == [] then []
    else if IsSlugChar(s[0]) then [s[0]] + ReplaceUnsafeRuns(s[1..])
    else if |s| > 1 && !IsSlugChar(s[1]) then ReplaceUnsafeRuns(s[1..])
    else "-" + ReplaceUnsafeRuns(s[1..])
  }

  /** No two neighbouring '-' characters. */
  predicate NoDoubleHyphen(s: string) {
    forall i :: 0 <= i < |s| - 1 ==> !(s[i] == '-' && s[i + 1] == '-')
  }

  /** `s.replace(/-{2,}/g, '-')` */
  function CollapseHyphens(s: string): (r: string)
    ensures s != [] ==> r != [] && r[0] == s[0]
    ensures NoDoubleHyphen(r)
  {
    if s == [] then []
    else if |s| > 1 && s[0] == '-' && s[1] == '-' then CollapseHyphens(s[1..])
    else [s[0]] + CollapseHyphens(s[1..])
  }

  /** Collapsing keeps the character class of a slug. */
  lemma {:induction false} CollapseHyphensSlug(s: string)
    requires forall i :: 0 <= i < |s| ==> IsSlugChar(s[i])
    ensures forall i :: 0 <= i < |CollapseHyphens(s)| ==> IsSlugChar(CollapseHyphens(s)[i])
  {
    if s != [] {
      CollapseHyphensSlug(s[1..]);
    }
  }

  /** Text without doubled '-' passes unchanged. */
  lemma {:induction false} CollapseHyphensKeeps(s: string)
    requires NoDoubleHyphen(s)
    ensures CollapseHyphens(s) == s
  {
    if s != [] {
      assert NoDoubleHyphen(s[1..]) by {
        forall i | 0 <= i < |s[1..]| - 1 ensures !(s[1..][i] == '-' && s[1..][i + 1] == '-') {
          assert s[1..][i] == s[i + 1] && s[1..][i + 1] == s[i + 2];
        }
      }
      CollapseHyphensKeeps(s[1..]);
      assert [s[0]] + s[1..] == s;
    }
  }

  /** `s.replace(/^-|-$/g, '')` */
  function DropEdgeHyphens(s: string): (r: string)
    ensures var k := if s != [] && s[0] == '-' then 1 else 0;
              k + |r| <= |s| && r == s[k..k + |r|]
    ensures (s == [] || (s[0] != '-' && s[|s| - 1] != '-')) ==> r == s
  {
    var a := if s != [] && s[0] == '-' then s[1..] else s;
    if a != [] && a[|a| - 1] == '-' then a[..|a| - 1] else a
  }

  /** A cleaned file-name stem: non-empty, only [a-z0-9-], no '-' at either
      end and no two '-' in a row. */
  predicate IsSafeBase(s: string) {
    s != [] && s[0] != '-' && s[|s| - 1] != '-' && NoDoubleHyphen(s) &&
    forall i :: 0 <= i < |s| ==> IsTagChar(s[i])
  }

  /** Dropping the edge hyphens of a slug without doubled hyphens and
      lower-casing it leaves '' or a safe stem. */
  lemma {:induction false} TrimmedSlugSafe(slug: string)
    requires forall i :: 0 <= i < |slug| ==> IsSlugChar(slug[i])
    requires NoDoubleHyphen(slug)
    ensures var r := ToLowerAscii(DropEdgeHyphens(slug)); r == [] || IsSafeBase(r)
  {
    var trimmed := DropEdgeHyphens(slug);
    var lowered := ToLowerAscii(trimmed);
    var k := if slug != [] && slug[0] == '-' then 1 else 0;
    forall i | 0 <= i < |lowered| - 1 ensures !(lowered[i] == '-' && lowered[i + 1] == '-') {
      assert trimmed[i] == slug[k + i] && trimmed[i + 1] == slug[k + i + 1];
    }
    forall i | 0 <= i < |lowered| ensures IsTagChar(lowered[i]) {
      assert trimmed[i] == slug[k + i];
    }
    if trimmed != [] {
      var last := k + |trimmed| - 1;
      assert trimmed[0] == slug[k] && trimmed[|trimmed| - 1] == slug[last];
      assert k == 1 ==> slug[0] == '-';
      assert last < |slug| - 1 ==> slug[last + 1] == '-';
    }
  }

  /** The `cleanBase` of sanitizeFilename. */
  function CleanBase(base: string): string {
    var lowered := ToLowerAscii(DropEdgeHyphens(CollapseHyphens(ReplaceUnsafeRuns(base))));
    if lowered == [] then "upload" else lowered
  }

  /** The cleaned stem is safe: non-empty, [a-z0-9-] only, no '-' at the
      ends and none doubled. */
  lemma CleanBaseSafe(base: string)
    ensures IsSafeBase(CleanBase(base))
  {
    CollapseHyphensSlug(ReplaceUnsafeRuns(base));
    TrimmedSlugSafe(CollapseHyphens(ReplaceUnsafeRuns(base)));
  }

  /** A stem that is already safe is kept as it is. */
  lemma CleanBaseKeepsSafeBase(base: string)
    requires IsSafeBase(base)
    ensures CleanBase(base) == base
  {
    assert forall i :: 0 <= i < |base| ==> IsSlugChar(base[i]);
    ReplaceUnsafeRunsSlugPrefix(base, []);
    assert base + [] == base;
    assert ReplaceUnsafeRuns(base) == base;
    CollapseHyphensKeeps(base);
    assert DropEdgeHyphens(base) == base;
    forall i | 0 <= i < |base| ensures LowerAscii(base[i]) == base[i] {
      assert IsTagChar(base[i]);
    }
    assert ToLowerAscii(base) == base;
  }

  /** sanitizeFilename(name): the cleaned stem followed by the lower-cased
      extension (at most 10 characters). An empty name gives 'upload'. */
  function SanitizeFilename(name: string): string {
    var ext := SliceTo(ExtName(name), MaxExtLength);
    CleanBase(BaseName(if name == [] then "upload" else name, ext)) + ToLowerAscii(ext)
  }

  /** The safe name is a safe stem followed by the extension (at most 10
      characters) lower-cased. */
  lemma SanitizeFilenameShape(name: string)
    ensures var r, ext := SanitizeFilename(name), SliceTo(ExtName(name), MaxExtLength);
            |r| > |ext| && IsSafeBase(r[..|r| - |ext|]) && r[|r| - |ext|..] == ToLowerAscii(ext)
  {
    var ext := SliceTo(ExtName(name), MaxExtLength);
    var stem := CleanBase(BaseName(if name == [] then "upload" else name, ext));
    CleanBaseSafe(BaseName(if name == [] then "upload" else name, ext));
    assert (stem + ToLowerAscii(ext))[..|stem|] == stem;
  }

  /** A safe name is a single path segment: it holds no '/'. */
  lemma SanitizeFilenameNoSlash(name: string)
    ensures var r := SanitizeFilename(name); forall i :: 0 <= i < |r| ==> r[i] != '/'
  {
    var ext := SliceTo(ExtName(name), MaxExtLength);
    var base := BaseName(if name == [] then "upload" else name, ext);
    CleanBaseSafe(base);
    ExtNoSlash(name);
    SafeStemLoweredExt(CleanBase(base), ext);
  }

  lemma ExtNoSlash(name: string)
    ensures var ext := SliceTo(ExtName(name), MaxExtLength);
            forall i :: 0 <= i < |ext| ==> ext[i] != '/'
  {
    var e, b := ExtName(name), LastSegment(name);
    if e != [] {
      SuffixNoSlash(e, b);
    }
  }

  lemma SuffixNoSlash(e: string, b: string)
    requires IsSuffix(e, b)
    requires forall i :: 0 <= i < |b| ==> b[i] != '/'
    ensures forall i :: 0 <= i < |e| ==> e[i] != '/'
  {
    assert forall i :: 0 <= i < |e| ==> e[i] == b[|b| - |e| + i];
  }

  lemma SafeStemLoweredExt(stem: string, ext: string)
    requires IsSafeBase(stem)
    requires forall i :: 0 <= i < |ext| ==> ext[i] != '/'
    ensures var r := stem + ToLowerAscii(ext); forall i :: 0 <= i < |r| ==> r[i] != '/'
  {
  }

  /** With an extension of at most 10 characters, the stem is the last
      segment without its extension. */
  lemma SanitizeFilenameShortExt(name: string)
    requires name != []
    requires |ExtName(name)| <= MaxExtLength
    ensures var b, e := LastSegment(name), ExtName(name);
            SanitizeFilename(name) == CleanBase(b[..|b| - |e|]) + ToLowerAscii(e)
  {
    var e := ExtName(name);
    assert SliceTo(e, MaxExtLength) == e;
    ShortExtBase(name);
  }

  /** basename drops an extension the segment ends with. */
  lemma ShortExtBase(name: string)
    ensures var b, e := LastSegment(name), ExtName(name);
            BaseName(name, e) == b[..|b| - |e|]
  {
    var t := StripTrailing(name, '/');
    var b, e := LastSegment(name), ExtName(name);
    assert b == AfterLast(t, '/');
    if e == [] {
      assert b[..|b|] == b;
    } else {
      assert |e| < |b| <= |t| <= |name|;
      assert e != name && e != b && IsSuffix(e, b);
    }
  }

  /** With a longer extension, the cut extension is not a suffix of the
      segment, so the whole segment, its '.' turned into '-', is the stem
      and the first 10 characters of the extension follow it: "a.verylongext"
      becomes "a-verylongext.verylonge". */
  lemma SanitizeFilenameLongExt(name: string)
    requires |ExtName(name)| > MaxExtLength
    ensures var b, e := LastSegment(name), ExtName(name);
            SanitizeFilename(name) == CleanBase(b) + ToLowerAscii(e[..MaxExtLength])
  {
    var e := ExtName(name);
    assert SliceTo(e, MaxExtLength) == e[..MaxExtLength];
    LongExtBase(name);
  }

  /** The cut extension starts with '.' where the segment has none, so
      basename keeps the whole segment. */
  lemma LongExtBase(name: string)
    requires |ExtName(name)| > MaxExtLength
    ensures name != []
    ensures BaseName(name, ExtName(name)[..MaxExtLength]) == LastSegment(name)
  {
    var t := StripTrailing(name, '/');
    var b, e := LastSegment(name), ExtName(name);
    var ext := e[..MaxExtLength];
    assert |e| < |b| <= |t| <= |name|;
    assert !IsSuffix(ext, b) by {
      assert IsSuffix(e, b);
      assert b[|b| - MaxExtLength] == e[|e| - MaxExtLength];
      assert e[|e| - MaxExtLength] != '.';
      assert ext[0] == '.';
    }
    assert |ext| == MaxExtLength < |name|;
    assert ext != [] && ext != name && !IsSuffix(b, ext);
    assert b == AfterLast(t, '/');
  }

  /** The part after the last `c` of `s + [c] + t`, where `t` has no `c`,
      is `t`. */
  lemma {:induction false} AfterLastSeparator(s: string, c: char, t: string)
    requires forall i :: 0 <= i < |t| ==> t[i] != c
    ensures AfterLast(s + [c] + t, c) == t
  {
    var w := s + [c] + t;
    if t != [] {
      var t' := t[..|t| - 1];
      assert w[..|w| - 1] == s + [c] + t';
      AfterLastSeparator(s, c, t');
      assert t == t' + [t[|t| - 1]];
    }
  }

  /** `ReplaceUnsafeRuns` keeps a slug prefix as it is. */
  lemma {:induction false} ReplaceUnsafeRunsSlugPrefix(a: string, rest: string)
    requires forall i :: 0 <= i < |a| ==> IsSlugChar(a[i])
    ensures ReplaceUnsafeRuns(a + rest) == a + ReplaceUnsafeRuns(rest)
  {
    if a == [] {
      assert a + rest == rest;
    } else {
      assert (a + rest)[1..] == a[1..] + rest;
      ReplaceUnsafeRunsSlugPrefix(a[1..], rest);
      assert a + ReplaceUnsafeRuns(rest) == [a[0]] + (a[1..] + ReplaceUnsafeRuns(rest));
    }
  }

  /** One unsafe character between two slugs becomes one '-'. */
  lemma {:induction false} ReplaceUnsafeRunsOne(a: string, x: char, b: string)
    requires forall i :: 0 <= i < |a| ==> IsSlugChar(a[i])
    requires forall i :: 0 <= i < |b| ==> IsSlugChar(b[i])
    requires !IsSlugChar(x)
    ensures ReplaceUnsafeRuns(a + [x] + b) == a + "-" + b
  {
    var xb := [x] + b;
    assert a + [x] + b == a + xb;
    ReplaceUnsafeRunsSlugPrefix(a, xb);
    assert xb[1..] == b;
    ReplaceUnsafeRunsSlugPrefix(b, []);
    assert b + [] == b;
    assert ReplaceUnsafeRuns(xb) == "-" + b;
    assert a + ("-" + b) == a + "-" + b;
  }

  predicate IsAlnum(c: char) {
    IsAsciiLetter(c) || IsDigit(c)
  }

  /** A string without `c` is its own part after the last `c`. */
  lemma {:induction false} AfterLastNone(s: string, c: char)
    requires forall i :: 0 <= i < |s| ==> s[i] != c
    ensures AfterLast(s, c) == s
  {
    if s != [] {
      AfterLastNone(s[..|s| - 1], c);
      assert s == s[..|s| - 1] + [s[|s| - 1]];
    }
  }

  /** A stem without '/' followed by a '.' extension of letters and digits
      is its own last segment, with that extension. */
  lemma TwoWordsSegment(stem: string, x: string)
    requires |stem| > 1 && stem[0] != '.'
    requires forall i :: 0 <= i < |stem| ==> stem[i] != '/'
    requires forall i :: 0 <= i < |x| ==> IsAlnum(x[i])
    ensures var name := stem + ("." + x);
            LastSegment(name) == name && ExtName(name) == "." + x
  {
    var name := stem + ("." + x);
    assert name == stem + ['.'] + x;
    assert StripTrailing(name, '/') == name;
    AfterLastNone(name, '/');
    AfterLastSeparator(stem, '.', x);
    assert name[|stem|..] == "." + x;
  }

  /** Once the last segment is known to be `stem + ext` with `ext` the
      extension, sanitizeFilename cleans `stem` and lower-cases `ext`. */
  lemma SanitizeFilenameFromParts(name: string, stem: string, ext: string)
    requires name != [] && |ext| <= MaxExtLength
    requires LastSegment(name) == stem + ext && ExtName(name) == ext
    ensures SanitizeFilename(name) == CleanBase(stem) + ToLowerAscii(ext)
  {
    SanitizeFilenameShortExt(name);
    assert (stem + ext)[..|stem|] == stem;
  }

  /** The stem "a b" of two words of letters and digits cleans to "a-b",
      lower-cased. */
  lemma CleanBaseTwoWords(a: string, b: string)
    requires a != [] && b != []
    requires forall i :: 0 <= i < |a| ==> IsAlnum(a[i])
    requires forall i :: 0 <= i < |b| ==> IsAlnum(b[i])
    ensures CleanBase(a + " " + b) == ToLowerAscii(a) + "-" + ToLowerAscii(b)
  {
    var slug := a + "-" + b;
    ReplaceUnsafeRunsOne(a, ' ', b);
    HyphenJoinedSlug(a, b);
    CollapseHyphensKeeps(slug);
    assert DropEdgeHyphens(slug) == slug;
    ToLowerAsciiAround(a, '-', b);
  }

  /** Two words of letters and digits joined by one '-' have no doubled
      '-' and no '-' at either end. */
  lemma HyphenJoinedSlug(a: string, b: string)
    requires a != [] && b != []
    requires forall i :: 0 <= i < |a| ==> IsAlnum(a[i])
    requires forall i :: 0 <= i < |b| ==> IsAlnum(b[i])
    ensures var slug := a + "-" + b;
            NoDoubleHyphen(slug) && slug[0] != '-' && slug[|slug| - 1] != '-'
  {
    var slug := a + "-" + b;
    forall i | 0 <= i < |slug| - 1 ensures !(slug[i] == '-' && slug[i + 1] == '-') {
      if i < |a| {
        assert slug[i] == a[i];
      } else if i > |a| {
        assert slug[i] == b[i - |a| - 1];
      } else {
        assert slug[i + 1] == b[0];
      }
    }
    assert slug[0] == a[0] && slug[|slug| - 1] == b[|b| - 1];
  }

  /** Lower-casing leaves the '.' in front of an extension in place. */
  lemma LowerDotExt(x: string)
    ensures ToLowerAscii("." + x) == "." + ToLowerAscii(x)
  {
    ToLowerAsciiAround([], '.', x);
    assert [] + ['.'] + x == "." + x;
    assert [] + ['.'] + ToLowerAscii(x) == "." + ToLowerAscii(x);
  }

  /** Two words of letters and digits separated by a space, with an
      extension of at most 9 letters and digits after the '.': the words are
      joined by '-' and everything is lower-cased. */
  lemma SanitizeFilenameTwoWords(a: string, b: string, x: string)
    requires a != [] && b != [] && |x| < MaxExtLength
    requires forall i :: 0 <= i < |a| ==> IsAlnum(a[i])
    requires forall i :: 0 <= i < |b| ==> IsAlnum(b[i])
    requires forall i :: 0 <= i < |x| ==> IsAlnum(x[i])
    ensures SanitizeFilename((a + " " + b) + ("." + x)) ==
              (ToLowerAscii(a) + "-" + ToLowerAscii(b)) + ("." + ToLowerAscii(x))
  {
    var stem, ext := a + " " + b, "." + x;
    var name := stem + ext;
    assert LastSegment(name) == stem + ext && ExtName(name) == ext by {
      forall i | 0 <= i < |stem| ensures stem[i] != '/' {
        if i < |a| {
          assert stem[i] == a[i];
        } else if i > |a| {
          assert stem[i] == b[i - |a| - 1];
        }
      }
      assert stem[0] == a[0];
      TwoWordsSegment(stem, x);
    }
    assert CleanBase(stem) == ToLowerAscii(a) + "-" + ToLowerAscii(b) by {
      CleanBaseTwoWords(a, b);
    }
    LowerDotExt(x);
    SanitizeFilenameFromParts(name, stem, ext);
  }
}
