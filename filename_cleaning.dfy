/** The pure part of `FilenameFormatterNode`: `clean_filename`,
    `generate_timestamp_filename` and the names `get_unique_filename` tries.
    Strings are sequences of code points. The Unicode character database and
    the pinyin dictionary are not modelled: they arrive as the functions of a
    `UnicodeInfo` value. */
module FilenameCleaning {
  import opened Wrappers

  /** Lookups into libraries the model does not contain: the general category
      of a character (`unicodedata.category`, two letters such as "So") and
      the toneless pinyin syllable of a CJK ideograph. */
  datatype UnicodeInfo = UnicodeInfo(category: char -> string, pinyin: char -> string)

  /** The longest name part `clean_filename` keeps. */
  const MaxNameLength: nat := 200

  /** The name substituted for a name part that cleans down to nothing. */
  const Unnamed: string := "unnamed"

  // ---------------------------------------------------------------------
  // Splitting off the extension (POSIX `os.path.splitext`)

  function LastIndexOf(s: string, c: char): (r: Option<nat>)
    ensures r.Some? ==> r.value < |s| && s[r.value] == c && forall k :: r.value < k < |s| ==> s[k] != c
    ensures r.None? ==> forall k :: 0 <= k < |s| ==> s[k] != c
  {
    if |s| == 0 then None
    else if s[|s| - 1] == c then Some(|s| - 1)
    else LastIndexOf(s[..|s| - 1], c)
  }

  predicate AllDots(s: string)
  {
    forall k :: 0 <= k < |s| ==> s[k] == '.'
  }

  /** The extension starts at the last dot of the last path component,
      provided something other than a dot comes before it in that
      component; otherwise there is no extension. */
  function SplitExt(path: string): (r: (string, string))
    ensures r.0 + r.1 == path
    ensures r.1 == [] || (r.1[0] == '.' && forall k :: 1 <= k < |r.1| ==> r.1[k] != '.' && r.1[k] != '/')
  {
    var sep := LastIndexOf(path, '/');
    var dot := LastIndexOf(path, '.');
    var nameStart := if sep.Some? then sep.value + 1 else 0;
    if dot.Some? && dot.value >= nameStart && !AllDots(path[nameStart..dot.value]) then
      (path[..dot.value], path[dot.value..])
    else
      (path, [])
  }

  /** The extension starts at the last dot when something other than a dot
      or a slash comes before it: "clip.MP4" splits into "clip" and ".MP4". */
  lemma ExtensionAfterLastDot(root: string, e: string)
    requires |root| > 0 && root[|root| - 1] != '.' && root[|root| - 1] != '/'
    requires forall k :: 0 <= k < |e| ==> e[k] != '.' && e[k] != '/'
    ensures SplitExt(root + "." + e) == (root, "." + e)
  {
    var path := root + "." + e;
    assert path[|root|] == '.';
    assert LastIndexOf(path, '.') == Some(|root|) by {
      LastIndexAfter(path, '.', |root|);
    }
    var sep := LastIndexOf(path, '/');
    var nameStart := if sep.Some? then sep.value + 1 else 0;
    assert path[|root| - 1] == root[|root| - 1];
    assert sep.Some? ==> sep.value < |root| - 1 by {
      if sep.Some? {
        assert path[sep.value] == '/';
        assert forall k :: |root| < k < |path| ==> path[k] == e[k - |root| - 1];
      }
    }
    assert path[nameStart..|root|][|root| - 1 - nameStart] != '.';
    assert path[..|root|] == root;
    assert path[|root|..] == "." + e;
  }

  /** The last index of a character is the one after which it no longer
      occurs. */
  lemma LastIndexAfter(s: string, c: char, i: nat)
    requires i < |s| && s[i] == c
    requires forall k :: i < k < |s| ==> s[k] != c
    ensures LastIndexOf(s, c) == Some(i)
  {
    if i < |s| - 1 {
      LastIndexAfter(s[..|s| - 1], c, i);
    }
  }

  /** A name without a dot has no extension. */
  lemma NoDotNoExtension(path: string)
    requires forall k :: 0 <= k < |path| ==> path[k] != '.'
    ensures SplitExt(path) == (path, [])
  {
  }

  /** Leading dots do not start an extension: ".bashrc" or "..mp4" with no
      later dot has none. */
  lemma LeadingDotsNoExtension(dots: string, rest: string)
    requires |dots| > 0 && AllDots(dots)
    requires forall k :: 0 <= k < |rest| ==> rest[k] != '.' && rest[k] != '/'
    requires forall k :: 0 <= k < |dots| ==> dots[k] != '/'
    ensures SplitExt(dots + rest) == (dots + rest, [])
  {
    var path := dots + rest;
    var dot := LastIndexOf(path, '.');
    assert path[|dots| - 1] == '.';
    assert dot == Some(|dots| - 1);
    assert LastIndexOf(path, '/') == None;
    assert path[0..dot.value] == dots[..|dots| - 1];
  }

  // ---------------------------------------------------------------------
  // Character classes

  function LowerChar(c: char): char
  {
    if IsUpper(c) then (c as int + 32) as char else c
  }

  predicate IsUpper(c: char)
  {
    'A' <= c <= 'Z'
  }

  /** `str.lower`, for the ASCII letters: no upper-case letter remains, each
      one becomes the letter 32 code points on, and every other character is
      kept in place. */
  function Lower(s: string): (r: string)
    ensures |r| == |s|
    ensures forall k :: 0 <= k < |r| ==> !IsUpper(r[k])
    ensures forall k :: 0 <= k < |s| && !IsUpper(s[k]) ==> r[k] == s[k]
    ensures forall k :: 0 <= k < |s| && IsUpper(s[k]) ==> 'a' <= r[k] <= 'z' && r[k] as int == s[k] as int + 32
  {
    seq(|s|, k requires 0 <= k < |s| => LowerChar(s[k]))
  }

  /** Lowering twice is lowering once, and lowering changes exactly the
      strings that hold an upper-case letter. */
  lemma LowerIsIdempotent(s: string)
    ensures Lower(Lower(s)) == Lower(s)
    ensures Lower(s) == s <==> forall k :: 0 <= k < |s| ==> !IsUpper(s[k])
  {
    if Lower(s) == s {
      forall k | 0 <= k < |s|
        ensures !IsUpper(s[k])
      {
        assert Lower(s)[k] == s[k];
      }
    }
  }

  /** The CJK Unified Ideographs block U+4E00..U+9FFF. */
  predicate IsCjk(c: char)
  {
    0x4E00 <= c as int <= 0x9FFF
  }

  predicate IsAscii(c: char)
  {
    c as int <= 0x7F
  }

  /** The characters `\s` matches in a str pattern: those for which
      `str.isspace` holds. */
  predicate IsSpace(c: char)
  {
    var n := c as int;
    || 0x09 <= n <= 0x0D
    || 0x1C <= n <= 0x20
    || n == 0x85 || n == 0xA0 || n == 0x1680
    || 0x2000 <= n <= 0x200A
    || n == 0x2028 || n == 0x2029 || n == 0x202F || n == 0x205F || n == 0x3000
  }

  /** The punctuation of the separator class besides `\s`. */
  const SeparatorPunctuation: string := "-+=[](){}|\\/:;\"'<>,?!*&%$#@~`"

  predicate IsSeparator(c: char)
  {
    IsSpace(c) || c in SeparatorPunctuation
  }

  predicate IsNonAscii(c: char)
  {
    !IsAscii(c)
  }

  predicate IsUnderscore(c: char)
  {
    c == '_'
  }

  // ---------------------------------------------------------------------
  // The cleaning steps

  /** Each CJK ideograph replaced by its pinyin, other characters kept. */
  function ToPinyin(s: string, info: UnicodeInfo): (r: string)
    ensures (forall k :: 0 <= k < |s| ==> !IsCjk(s[k])) ==> r == s
    ensures |s| == 1 && IsCjk(s[0]) ==> r == info.pinyin(s[0])
    ensures |s| == 1 && !IsCjk(s[0]) ==> r == s
  {
    if |s| == 0 then []
    else (if IsCjk(s[0]) then info.pinyin(s[0]) else [s[0]]) + ToPinyin(s[1..], info)
  }

  /** Conversion works character by character: converting a concatenation
      concatenates the conversions. */
  lemma {:induction false} ToPinyinAppend(a: string, b: string, info: UnicodeInfo)
    ensures ToPinyin(a + b, info) == ToPinyin(a, info) + ToPinyin(b, info)
  {
    if |a| == 0 {
      assert a + b == b;
    } else {
      assert (a + b)[0] == a[0] && (a + b)[1..] == a[1..] + b;
      ToPinyinAppend(a[1..], b, info);
    }
  }

  /** The characters whose category is not in `drop`, in order. */
  function DropCategories(s: string, info: UnicodeInfo, drop: set<string>): (r: string)
    ensures |r| <= |s|
    ensures forall k :: 0 <= k < |r| ==> r[k] in s && info.category(r[k]) !in drop
    ensures (forall k :: 0 <= k < |s| ==> info.category(s[k]) !in drop) ==> r == s
    ensures |s| == 1 && info.category(s[0]) in drop ==> r == []
    ensures |s| == 1 && info.category(s[0]) !in drop ==> r == s
  {
    if |s| == 0 then []
    else (if info.category(s[0]) in drop then [] else [s[0]]) + DropCategories(s[1..], info, drop)
  }

  /** Filtering works character by character: filtering a concatenation
      concatenates the filtered parts, so kept characters stay in order. */
  lemma {:induction false} DropCategoriesAppend(a: string, b: string, info: UnicodeInfo, drop: set<string>)
    ensures DropCategories(a + b, info, drop) == DropCategories(a, info, drop) + DropCategories(b, info, drop)
  {
    if |a| == 0 {
      assert a + b == b;
    } else {
      assert (a + b)[0] == a[0] && (a + b)[1..] == a[1..] + b;
      DropCategoriesAppend(a[1..], b, info, drop);
    }
  }

  const SymbolCategories: set<string> := {"So", "Sm", "Sk", "Sc"}
  const ControlCategories: set<string> := {"Cc", "Cf"}

  /** `re.sub(class + '+', '_', s)`: every maximal run of characters of the
      class becomes a single underscore. `inRun` says whether the character
      before `s` was of the class, so that the run it began goes on. */
  function ReplaceRunsAfter(s: string, inClass: char -> bool, inRun: bool): string
  {
    if |s| == 0 then []
    else if inClass(s[0]) then (if inRun then [] else "_") + ReplaceRunsAfter(s[1..], inClass, true)
    else [s[0]] + ReplaceRunsAfter(s[1..], inClass, false)
  }

  function ReplaceRuns(s: string, inClass: char -> bool): string
  {
    ReplaceRunsAfter(s, inClass, false)
  }

  /** `s.lstrip('_')`. */
  function StripLeading(s: string): (r: string)
    ensures |r| <= |s| && r == s[|s| - |r|..]
    ensures forall k :: 0 <= k < |s| - |r| ==> s[k] == '_'
    ensures |r| > 0 ==> r[0] != '_'
  {
    if |s| > 0 && s[0] == '_' then StripLeading(s[1..]) else s
  }

  /** `s.rstrip('_')`. */
  function StripTrailing(s: string): (r: string)
    ensures |r| <= |s| && r == s[..|r|]
    ensures forall k :: |r| <= k < |s| ==> s[k] == '_'
    ensures |r| > 0 ==> r[|r| - 1] != '_'
  {
    if |s| > 0 && s[|s| - 1] == '_' then StripTrailing(s[..|s| - 1]) else s
  }

  /** `s.strip('_')`. */
  function Strip(s: string): string
  {
    StripTrailing(StripLeading(s))
  }

  /** The first steps of `clean_filename` on the name part: optional pinyin,
      symbol and control characters dropped, separator runs and (without
      conversion) non-ASCII runs made underscores. `convert` says whether
      pinyin conversion is both requested and available. */
  function Separate(namePart: string, convert: bool, info: UnicodeInfo): string
  {
    var converted := if convert then ToPinyin(namePart, info) else namePart;
    var noSymbols := DropCategories(converted, info, SymbolCategories);
    var noControls := DropCategories(noSymbols, info, ControlCategories);
    var separated := ReplaceRuns(noControls, IsSeparator);
    if convert then separated else ReplaceRuns(separated, IsNonAscii)
  }

  /** The last steps: underscores stripped from both ends, "unnamed" for an
      empty result, and a result longer than the cap cut to it with the
      underscores the cut exposes stripped. */
  function Finish(collapsed: string, maxLength: nat): string
  {
    var stripped := Strip(collapsed);
    var named := if |stripped| == 0 then Unnamed else stripped;
    if |named| > maxLength then StripTrailing(named[..maxLength]) else named
  }

  /** `clean_filename` on the name part. */
  function CleanName(namePart: string, convert: bool, info: UnicodeInfo, maxLength: nat): string
  {
    Finish(ReplaceRuns(Separate(namePart, convert, info), IsUnderscore), maxLength)
  }

  /** `clean_filename`: the cleaned name part followed by the lowered
      extension. The name part is never empty, at most 200 characters long,
      has no "__", neither starts nor ends with "_", and is ASCII unless
      pinyin conversion ran. */
  function CleanFilename(filename: string, useChineseConversion: bool, hasPypinyin: bool, info: UnicodeInfo): (r: string)
    ensures var ext := SplitExt(filename).1;
      && |r| >= |ext|
      && r[|r| - |ext|..] == Lower(ext)
      && CleanShape(r[..|r| - |ext|], MaxNameLength)
      && (!(useChineseConversion && hasPypinyin) ==> AllAscii(r[..|r| - |ext|]))
  {
    var (namePart, ext) := SplitExt(filename);
    var name := CleanName(namePart, useChineseConversion && hasPypinyin, info, MaxNameLength);
    CleanNameShape(namePart, useChineseConversion && hasPypinyin, info, MaxNameLength);
    CleanNameIsAsciiWithoutConversion(namePart, useChineseConversion && hasPypinyin, info, MaxNameLength);
    assert (name + Lower(ext))[..|name|] == name;
    name + Lower(ext)
  }

  // ---------------------------------------------------------------------
  // Properties of the run rewriting

  predicate NoDoubleUnderscore(s: string)
  {
    forall k :: 0 <= k < |s| - 1 ==> !(s[k] == '_' && s[k + 1] == '_')
  }

  /** The shape of a cleaned name part: non-empty, within the cap, no "__",
      and no underscore at either end. */
  predicate CleanShape(r: string, maxLength: nat)
  {
    && 0 < |r| <= maxLength
    && NoDoubleUnderscore(r)
    && r[0] != '_' && r[|r| - 1] != '_'
  }

  /** The output holds characters of the input and underscores only; when the
      underscore is not of the class, no character of the class is left. */
  lemma {:induction false} ReplaceRunsCharacters(s: string, inClass: char -> bool, inRun: bool)
    ensures forall k :: 0 <= k < |ReplaceRunsAfter(s, inClass, inRun)| ==>
      ReplaceRunsAfter(s, inClass, inRun)[k] == '_' || (ReplaceRunsAfter(s, inClass, inRun)[k] in s && !inClass(ReplaceRunsAfter(s, inClass, inRun)[k]))
  {
    if |s| > 0 {
      ReplaceRunsCharacters(s[1..], inClass, inClass(s[0]));
    }
  }

  /** After collapsing underscore runs no two underscores are adjacent, and
      inside a run the output does not start with one. */
  lemma {:induction false} CollapsedHasNoDoubleUnderscore(s: string, inRun: bool)
    ensures NoDoubleUnderscore(ReplaceRunsAfter(s, IsUnderscore, inRun))
    ensures inRun && |ReplaceRunsAfter(s, IsUnderscore, inRun)| > 0 ==> ReplaceRunsAfter(s, IsUnderscore, inRun)[0] != '_'
  {
    if |s| > 0 {
      CollapsedHasNoDoubleUnderscore(s[1..], s[0] == '_');
    }
  }

  /** Characters outside the class pass through unchanged. */
  lemma {:induction false} ReplaceRunsKeepsPlainPrefix(x: string, t: string, inClass: char -> bool)
    requires forall k :: 0 <= k < |x| ==> !inClass(x[k])
    ensures ReplaceRunsAfter(x + t, inClass, false) == x + ReplaceRunsAfter(t, inClass, false)
  {
    if |x| > 0 {
      calc {
        ReplaceRunsAfter(x + t, inClass, false);
        == { assert (x + t)[0] == x[0] && (x + t)[1..] == x[1..] + t; }
        [x[0]] + ReplaceRunsAfter(x[1..] + t, inClass, false);
        == { ReplaceRunsKeepsPlainPrefix(x[1..], t, inClass); }
        [x[0]] + (x[1..] + ReplaceRunsAfter(t, inClass, false));
        == { assert x == [x[0]] + x[1..]; }
        x + ReplaceRunsAfter(t, inClass, false);
      }
    } else {
      assert x + t == t;
    }
  }

  /** A run of class characters is absorbed into the underscore begun before
      it. */
  lemma {:induction false} ReplaceRunsAbsorbsRun(run: string, y: string, inClass: char -> bool)
    requires forall k :: 0 <= k < |run| ==> inClass(run[k])
    ensures ReplaceRunsAfter(run + y, inClass, true) == ReplaceRunsAfter(y, inClass, true)
  {
    if |run| > 0 {
      ReplaceRunsAbsorbsRun(run[1..], y, inClass);
      assert (run + y)[0] == run[0] && (run + y)[1..] == run[1..] + y;
    } else {
      assert run + y == y;
    }
  }

  /** Each maximal run of class characters becomes exactly one underscore:
      plain text, then a non-empty run, then text that does not continue the
      run, rewrites to the plain text, one underscore, and the rewritten
      rest. */
  lemma EachRunBecomesOneUnderscore(x: string, run: string, y: string, inClass: char -> bool)
    requires forall k :: 0 <= k < |x| ==> !inClass(x[k])
    requires |run| > 0 && forall k :: 0 <= k < |run| ==> inClass(run[k])
    requires |y| == 0 || !inClass(y[0])
    ensures ReplaceRuns(x + run + y, inClass) == x + "_" + ReplaceRuns(y, inClass)
  {
    assert x + run + y == x + (run + y);
    ReplaceRunsKeepsPlainPrefix(x, run + y, inClass);
    assert (run + y)[1..] == run[1..] + y;
    ReplaceRunsAbsorbsRun(run[1..], y, inClass);
  }

  /** Text with no class character is left as it is. */
  lemma ReplaceRunsIdentity(s: string, inClass: char -> bool)
    requires forall k :: 0 <= k < |s| ==> !inClass(s[k])
    ensures ReplaceRuns(s, inClass) == s
  {
    ReplaceRunsKeepsPlainPrefix(s, [], inClass);
    assert s + [] == s;
  }

  // ---------------------------------------------------------------------
  // Properties of the cleaned name

  /** Stripping keeps a contiguous part of the text. */
  lemma StripIsSlice(s: string) returns (i: nat, j: nat)
    ensures i <= j <= |s| && Strip(s) == s[i..j]
  {
    var l := StripLeading(s);
    var r := StripTrailing(l);
    i, j := |s| - |l|, |s| - |l| + |r|;
    assert r == s[i..j];
  }

  /** A slice of text without adjacent underscores has none either. */
  lemma SliceKeepsNoDoubleUnderscore(s: string, i: nat, j: nat)
    requires i <= j <= |s|
    requires NoDoubleUnderscore(s)
    ensures NoDoubleUnderscore(s[i..j])
  {
    forall k | 0 <= k < j - i - 1
      ensures !(s[i..j][k] == '_' && s[i..j][k + 1] == '_')
    {
      assert s[i..j][k] == s[i + k] && s[i..j][k + 1] == s[i + k + 1];
    }
  }

  /** Finishing text without adjacent underscores gives a non-empty name
      within the cap that has none and neither starts nor ends with one. */
  lemma FinishShape(collapsed: string, maxLength: nat)
    requires maxLength > 0
    requires NoDoubleUnderscore(collapsed)
    ensures var r := Finish(collapsed, maxLength);
      && 0 < |r| <= maxLength
      && NoDoubleUnderscore(r)
      && r[0] != '_' && r[|r| - 1] != '_'
  {
    var stripped := Strip(collapsed);
    var i, j := StripIsSlice(collapsed);
    SliceKeepsNoDoubleUnderscore(collapsed, i, j);
    var named := if |stripped| == 0 then Unnamed else stripped;
    assert NoDoubleUnderscore(named) && |named| > 0 && named[0] != '_' && named[|named| - 1] != '_';
    if |named| > maxLength {
      var cut := named[..maxLength];
      SliceKeepsNoDoubleUnderscore(named, 0, maxLength);
      var r := StripTrailing(cut);
      assert cut[0] != '_';
      assert |r| > 0;
      SliceKeepsNoDoubleUnderscore(cut, 0, |r|);
    }
  }

  /** The cleaned name part is never empty, has no two adjacent underscores,
      neither starts nor ends with one, and is no longer than the cap. */
  lemma CleanNameShape(namePart: string, convert: bool, info: UnicodeInfo, maxLength: nat)
    requires maxLength > 0
    ensures CleanShape(CleanName(namePart, convert, info, maxLength), maxLength)
  {
    CollapsedHasNoDoubleUnderscore(Separate(namePart, convert, info), false);
    FinishShape(ReplaceRuns(Separate(namePart, convert, info), IsUnderscore), maxLength);
  }

  /** Characters of a slice are characters of the whole. */
  lemma SliceCharacters(s: string, i: nat, j: nat)
    requires i <= j <= |s|
    ensures forall k :: 0 <= k < j - i ==> s[i..j][k] in s
  {
    forall k | 0 <= k < j - i
      ensures s[i..j][k] in s
    {
      assert s[i..j][k] == s[i + k];
    }
  }

  predicate AllAscii(s: string)
  {
    forall k :: 0 <= k < |s| ==> IsAscii(s[k])
  }

  lemma SliceKeepsAscii(s: string, i: nat, j: nat)
    requires i <= j <= |s|
    requires AllAscii(s)
    ensures AllAscii(s[i..j])
  {
    forall k | 0 <= k < j - i
      ensures IsAscii(s[i..j][k])
    {
      assert s[i..j][k] == s[i + k];
    }
  }

  /** Finishing adds no character outside ASCII. */
  lemma FinishKeepsAscii(collapsed: string, maxLength: nat)
    requires AllAscii(collapsed)
    ensures AllAscii(Finish(collapsed, maxLength))
  {
    var stripped := Strip(collapsed);
    var i, j := StripIsSlice(collapsed);
    SliceKeepsAscii(collapsed, i, j);
    var named := if |stripped| == 0 then Unnamed else stripped;
    assert AllAscii(named);
    if |named| > maxLength {
      var cut := named[..maxLength];
      SliceKeepsAscii(named, 0, maxLength);
      var r := StripTrailing(cut);
      assert r == cut[0..|r|];
      SliceKeepsAscii(cut, 0, |r|);
    }
  }

  /** Without pinyin conversion the cleaned name part is pure ASCII. */
  lemma CleanNameIsAsciiWithoutConversion(namePart: string, convert: bool, info: UnicodeInfo, maxLength: nat)
    ensures !convert ==> AllAscii(CleanName(namePart, convert, info, maxLength))
  {
    if convert {
      return;
    }
    var noControls := DropCategories(DropCategories(namePart, info, SymbolCategories), info, ControlCategories);
    var separated := ReplaceRuns(noControls, IsSeparator);
    ReplaceRunsCharacters(separated, IsNonAscii, false);
    var ascii := Separate(namePart, false, info);
    assert AllAscii(ascii);
    ReplaceRunsCharacters(ascii, IsUnderscore, false);
    FinishKeepsAscii(ReplaceRuns(ascii, IsUnderscore), maxLength);
  }

  /** A name part that cleans down to nothing becomes "unnamed". */
  lemma EmptyNameBecomesUnnamed(namePart: string, convert: bool, info: UnicodeInfo, maxLength: nat)
    requires maxLength >= |Unnamed|
    requires forall k :: 0 <= k < |namePart| ==> namePart[k] == '_'
    ensures CleanName(namePart, convert, info, maxLength) == Unnamed
  {
    var converted := if convert then ToPinyin(namePart, info) else namePart;
    assert converted == namePart;
    var noSymbols := DropCategories(converted, info, SymbolCategories);
    var noControls := DropCategories(noSymbols, info, ControlCategories);
    assert forall k :: 0 <= k < |noControls| ==> noControls[k] == '_' by {
      forall k | 0 <= k < |noControls|
        ensures noControls[k] == '_'
      {
        var j :| 0 <= j < |noSymbols| && noSymbols[j] == noControls[k];
        var i :| 0 <= i < |namePart| && namePart[i] == noSymbols[j];
      }
    }
    LettersAreNoSeparators();
    ReplaceRunsIdentity(noControls, IsSeparator);
    ReplaceRunsIdentity(noControls, IsNonAscii);
    var separated := Separate(namePart, convert, info);
    assert separated == noControls;
    ReplaceRunsCharacters(separated, IsUnderscore, false);
    assert Strip(ReplaceRuns(separated, IsUnderscore)) == [];
  }

  /** A name that is already clean is kept: ASCII, no separator, no
      underscore, no character of a dropped category, and within the cap. */
  lemma PlainNameIsKept(namePart: string, convert: bool, info: UnicodeInfo, maxLength: nat)
    requires 0 < |namePart| <= maxLength
    requires forall k :: 0 <= k < |namePart| ==>
      && IsAscii(namePart[k]) && !IsSeparator(namePart[k]) && namePart[k] != '_'
      && KeptCategory(namePart[k], info)
    ensures CleanName(namePart, convert, info, maxLength) == namePart
  {
    var converted := if convert then ToPinyin(namePart, info) else namePart;
    assert converted == namePart;
    var noSymbols := DropCategories(converted, info, SymbolCategories);
    assert noSymbols == namePart;
    var noControls := DropCategories(noSymbols, info, ControlCategories);
    assert noControls == namePart;
    ReplaceRunsIdentity(namePart, IsSeparator);
    ReplaceRunsIdentity(namePart, IsNonAscii);
    assert Separate(namePart, convert, info) == namePart;
    ReplaceRunsIdentity(namePart, IsUnderscore);
    assert StripLeading(namePart) == namePart;
    assert StripTrailing(namePart) == namePart;
  }

  /** The character is in none of the categories `clean_filename` drops. */
  predicate KeptCategory(c: char, info: UnicodeInfo)
  {
    info.category(c) !in SymbolCategories && info.category(c) !in ControlCategories
  }

  /** What may be left of a character after the separator step: an
      underscore, or a character that is no separator and of no dropped
      category. */
  predicate Survives(c: char, info: UnicodeInfo)
  {
    c == '_' || (!IsSeparator(c) && KeptCategory(c, info))
  }

  predicate AllSurvive(s: string, info: UnicodeInfo)
  {
    forall k :: 0 <= k < |s| ==> Survives(s[k], info)
  }

  /** Rewriting runs into underscores keeps only surviving characters. */
  lemma ReplaceRunsKeepsSurvivors(s: string, inClass: char -> bool, info: UnicodeInfo)
    requires AllSurvive(s, info)
    ensures AllSurvive(ReplaceRuns(s, inClass), info)
  {
    var r := ReplaceRuns(s, inClass);
    ReplaceRunsCharacters(s, inClass, false);
    forall k | 0 <= k < |r|
      ensures Survives(r[k], info)
    {
      if r[k] != '_' {
        var j :| 0 <= j < |s| && s[j] == r[k];
      }
    }
  }

  /** After the symbol, control and separator steps every character
      survives. */
  lemma SeparatedCharactersSurvive(namePart: string, convert: bool, info: UnicodeInfo)
    ensures AllSurvive(Separate(namePart, convert, info), info)
  {
    var converted := if convert then ToPinyin(namePart, info) else namePart;
    var noSymbols := DropCategories(converted, info, SymbolCategories);
    var noControls := DropCategories(noSymbols, info, ControlCategories);
    forall k | 0 <= k < |noControls|
      ensures KeptCategory(noControls[k], info)
    {
      var j :| 0 <= j < |noSymbols| && noSymbols[j] == noControls[k];
    }
    var separated := ReplaceRuns(noControls, IsSeparator);
    ReplaceRunsCharacters(noControls, IsSeparator, false);
    forall k | 0 <= k < |separated|
      ensures Survives(separated[k], info)
    {
      if separated[k] != '_' {
        var j :| 0 <= j < |noControls| && noControls[j] == separated[k];
      }
    }
    if !convert {
      ReplaceRunsKeepsSurvivors(separated, IsNonAscii, info);
    }
  }

  /** Finishing keeps characters of its input, or those of "unnamed". */
  lemma FinishCharacters(collapsed: string, maxLength: nat)
    ensures forall k :: 0 <= k < |Finish(collapsed, maxLength)| ==>
      Finish(collapsed, maxLength)[k] in collapsed || Finish(collapsed, maxLength)[k] in Unnamed
  {
    var stripped := Strip(collapsed);
    var i, j := StripIsSlice(collapsed);
    SliceCharacters(collapsed, i, j);
    var named := if |stripped| == 0 then Unnamed else stripped;
    assert forall k :: 0 <= k < |named| ==> named[k] in collapsed || named[k] in Unnamed;
    if |named| > maxLength {
      var cut := named[..maxLength];
      SliceCharacters(named, 0, maxLength);
      var r := StripTrailing(cut);
      assert r == cut[0..|r|];
      SliceCharacters(cut, 0, |r|);
      assert forall k :: 0 <= k < |r| ==> r[k] in named;
    }
  }

  /** Every character of the cleaned name part is an underscore, a letter of
      "unnamed", or a character that is no separator and of no dropped
      category: no separator run and no symbol, emoji or control character
      is left. */
  lemma CleanNameCharacters(namePart: string, convert: bool, info: UnicodeInfo, maxLength: nat)
    ensures var r := CleanName(namePart, convert, info, maxLength);
      forall k :: 0 <= k < |r| ==>
        r[k] == '_' || r[k] in Unnamed || (!IsSeparator(r[k]) && KeptCategory(r[k], info))
  {
    var collapsed := ReplaceRuns(Separate(namePart, convert, info), IsUnderscore);
    SeparatedCharactersSurvive(namePart, convert, info);
    ReplaceRunsKeepsSurvivors(Separate(namePart, convert, info), IsUnderscore, info);
    FinishCharacters(collapsed, maxLength);
    var r := Finish(collapsed, maxLength);
    forall k | 0 <= k < |r| && r[k] !in Unnamed
      ensures Survives(r[k], info)
    {
      var j :| 0 <= j < |collapsed| && collapsed[j] == r[k];
    }
  }

  /** Neither "_" nor a letter of "unnamed" is a separator. */
  lemma PlaceholderIsNoSeparator()
    ensures !IsSeparator('_')
    ensures forall k :: 0 <= k < |Unnamed| ==> !IsSeparator(Unnamed[k])
  {
    LettersAreNoSeparators();
  }

  /** No character from "_" to "z" but the backquote is a separator. */
  lemma LettersAreNoSeparators()
    ensures forall c: char :: '_' <= c <= 'z' && c != '`' ==> !IsSeparator(c)
  {
    forall k | 0 <= k < |SeparatorPunctuation|
      ensures !('_' <= SeparatorPunctuation[k] <= 'z' && SeparatorPunctuation[k] != '`')
    {
    }
  }

  /** When "_" and the letters of "unnamed" are of no dropped category (as
      in Unicode, where they are a connector and lower-case letters), no
      separator and no character of a dropped category survives cleaning. */
  lemma NoSeparatorOrDroppedCategorySurvives(namePart: string, convert: bool, info: UnicodeInfo, maxLength: nat)
    ensures KeptCategory('_', info) && (forall k :: 0 <= k < |Unnamed| ==> KeptCategory(Unnamed[k], info)) ==>
      var r := CleanName(namePart, convert, info, maxLength);
      forall k :: 0 <= k < |r| ==> !IsSeparator(r[k]) && KeptCategory(r[k], info)
  {
    CleanNameCharacters(namePart, convert, info, maxLength);
    PlaceholderIsNoSeparator();
  }

  // ---------------------------------------------------------------------
  // `generate_timestamp_filename`

  /** `"_".join(parts)`. */
  function JoinUnderscore(parts: seq<string>): string
  {
    if |parts| == 0 then []
    else if |parts| == 1 then parts[0]
    else parts[0] + "_" + JoinUnderscore(parts[1..])
  }

  /** The parts of the new name: the prefix when there is one, the
      modification time when requested, and the cleaned name part unless it is
      empty or the "unnamed" placeholder. */
  function NameParts(namePart: string, prefix: string, useTimestamp: bool, timestamp: string): seq<string>
  {
    (if prefix != [] then [prefix] else [])
      + (if useTimestamp then [timestamp] else [])
      + (if namePart != [] && namePart != Unnamed then [namePart] else [])
  }

  /** `generate_timestamp_filename`, given the file's formatted modification
      time. */
  function TimestampFilename(cleanedFilename: string, prefix: string, useTimestamp: bool, timestamp: string): (r: string)
    ensures var (namePart, ext) := SplitExt(cleanedFilename);
      && NewNameLength(r, namePart, ext, prefix, useTimestamp, timestamp)
      && NewNameStart(r, namePart, prefix, useTimestamp, timestamp)
      && NewNameEnd(r, namePart, ext, prefix, useTimestamp, timestamp)
  {
    var (namePart, ext) := SplitExt(cleanedFilename);
    NewNameHasLength(namePart, ext, prefix, useTimestamp, timestamp);
    NewNameHasStart(namePart, ext, prefix, useTimestamp, timestamp);
    NewNameHasEnd(namePart, ext, prefix, useTimestamp, timestamp);
    JoinUnderscore(NameParts(namePart, prefix, useTimestamp, timestamp)) + ext
  }

  /** What the new name is made of: its length is that of its parts, the
      underscores between them and the extension; it ends with the
      extension, and it is the bare extension when no part is present. */
  predicate NewNameLength(r: string, namePart: string, ext: string, prefix: string, useTimestamp: bool, timestamp: string)
  {
    var parts := NameParts(namePart, prefix, useTimestamp, timestamp);
    && |r| == SumOfLengths(parts) + (if |parts| == 0 then 0 else |parts| - 1) + |ext|
    && EndsWith(r, ext)
    && (|parts| == 0 ==> r == ext)
  }

  /** The new name starts with the prefix and then "_" and the time when
      those are present, or with the time when there is no prefix. */
  predicate NewNameStart(r: string, namePart: string, prefix: string, useTimestamp: bool, timestamp: string)
  {
    var parts := NameParts(namePart, prefix, useTimestamp, timestamp);
    && (prefix != [] ==> prefix <= r)
    && (prefix != [] && |parts| > 1 ==> prefix + "_" <= r)
    && (prefix == [] && useTimestamp ==> timestamp <= r)
    && (prefix != [] && useTimestamp ==> prefix + "_" + timestamp <= r)
  }

  /** The new name ends with the kept name part, after an underscore when
      another part precedes it, and then the extension. */
  predicate NewNameEnd(r: string, namePart: string, ext: string, prefix: string, useTimestamp: bool, timestamp: string)
  {
    var parts := NameParts(namePart, prefix, useTimestamp, timestamp);
    && (namePart != [] && namePart != Unnamed ==> EndsWith(r, namePart + ext))
    && (namePart != [] && namePart != Unnamed && |parts| > 1 ==> EndsWith(r, "_" + namePart + ext))
  }

  /** Where each present part sits among the parts. */
  lemma NamePartsPositions(namePart: string, prefix: string, useTimestamp: bool, timestamp: string)
    ensures var parts := NameParts(namePart, prefix, useTimestamp, timestamp);
      && (prefix != [] ==> |parts| > 0 && parts[0] == prefix)
      && (prefix != [] && useTimestamp ==> |parts| > 1 && parts[1] == timestamp)
      && (prefix == [] && useTimestamp ==> |parts| > 0 && parts[0] == timestamp)
      && (namePart != [] && namePart != Unnamed ==> |parts| > 0 && parts[|parts| - 1] == namePart)
  {
  }

  lemma NewNameHasLength(namePart: string, ext: string, prefix: string, useTimestamp: bool, timestamp: string)
    ensures NewNameLength(JoinUnderscore(NameParts(namePart, prefix, useTimestamp, timestamp)) + ext,
                          namePart, ext, prefix, useTimestamp, timestamp)
  {
    var joined := JoinUnderscore(NameParts(namePart, prefix, useTimestamp, timestamp));
    JoinUnderscoreLength(NameParts(namePart, prefix, useTimestamp, timestamp));
    assert (joined + ext)[|joined + ext| - |ext|..] == ext;
  }

  lemma NewNameHasStart(namePart: string, ext: string, prefix: string, useTimestamp: bool, timestamp: string)
    ensures NewNameStart(JoinUnderscore(NameParts(namePart, prefix, useTimestamp, timestamp)) + ext,
                         namePart, prefix, useTimestamp, timestamp)
  {
    var parts := NameParts(namePart, prefix, useTimestamp, timestamp);
    NamePartsPositions(namePart, prefix, useTimestamp, timestamp);
    JoinUnderscoreStartsWithFirst(parts);
  }

  lemma NewNameHasEnd(namePart: string, ext: string, prefix: string, useTimestamp: bool, timestamp: string)
    ensures NewNameEnd(JoinUnderscore(NameParts(namePart, prefix, useTimestamp, timestamp)) + ext,
                       namePart, ext, prefix, useTimestamp, timestamp)
  {
    var parts := NameParts(namePart, prefix, useTimestamp, timestamp);
    var joined := JoinUnderscore(parts);
    NamePartsPositions(namePart, prefix, useTimestamp, timestamp);
    JoinUnderscoreEndsWithLast(parts);
    var last := if |parts| > 0 then parts[|parts| - 1] else [];
    EndsWithAppend(joined, last, ext);
    EndsWithAppend(joined, "_" + last, ext);
  }

  predicate EndsWith(s: string, suffix: string)
  {
    |suffix| <= |s| && s[|s| - |suffix|..] == suffix
  }

  /** The joined name ends with the last part, and with an underscore and
      the last part when there are more. */
  lemma {:induction false} JoinUnderscoreEndsWithLast(parts: seq<string>)
    ensures |parts| > 0 ==> EndsWith(JoinUnderscore(parts), parts[|parts| - 1])
    ensures |parts| > 1 ==> EndsWith(JoinUnderscore(parts), "_" + parts[|parts| - 1])
  {
    if |parts| > 1 {
      var rest := parts[1..];
      JoinUnderscoreEndsWithLast(rest);
      assert rest[|rest| - 1] == parts[|parts| - 1];
      var tail := JoinUnderscore(rest);
      var j := JoinUnderscore(parts);
      assert j == parts[0] + "_" + tail;
      var last := parts[|parts| - 1];
      assert j[|j| - |last|..] == tail[|tail| - |last|..];
      if |rest| > 1 {
        assert j[|j| - |"_" + last|..] == tail[|tail| - |"_" + last|..];
      } else {
        assert tail == last;
        assert j[|j| - |"_" + last|..] == "_" + last;
      }
    }
  }

  /** A common ending survives appending the same text to both. */
  lemma EndsWithAppend(s: string, suffix: string, ext: string)
    ensures EndsWith(s, suffix) ==> EndsWith(s + ext, suffix + ext)
  {
    if EndsWith(s, suffix) {
      assert (s + ext)[|s + ext| - |suffix + ext|..] == s[|s| - |suffix|..] + ext;
    }
  }

  /** The joined name starts with the first part, and with the first part
      and an underscore when there are more. */
  lemma JoinUnderscoreStartsWithFirst(parts: seq<string>)
    ensures |parts| > 0 ==> parts[0] <= JoinUnderscore(parts)
    ensures |parts| > 1 ==> parts[0] + "_" <= JoinUnderscore(parts)
    ensures |parts| > 1 ==> parts[0] + "_" + parts[1] <= JoinUnderscore(parts)
  {
    if |parts| > 1 {
      var tail := JoinUnderscore(parts[1..]);
      assert JoinUnderscore(parts) == parts[0] + "_" + tail;
      assert parts[1..][0] == parts[1];
      if |parts| > 2 {
        assert tail == parts[1] + "_" + JoinUnderscore(parts[2..]) by {
          assert parts[1..][1..] == parts[2..];
        }
      }
      assert parts[1] <= tail;
    }
  }

  /** With every part present the name reads prefix, time, name, extension. */
  lemma TimestampFilenameAllParts(cleanedFilename: string, prefix: string, timestamp: string)
    requires prefix != []
    requires SplitExt(cleanedFilename).0 != [] && SplitExt(cleanedFilename).0 != Unnamed
    ensures TimestampFilename(cleanedFilename, prefix, true, timestamp)
      == prefix + "_" + timestamp + "_" + SplitExt(cleanedFilename).0 + SplitExt(cleanedFilename).1
  {
    AllPartsJoined(SplitExt(cleanedFilename).0, prefix, timestamp);
  }

  lemma AllPartsJoined(namePart: string, prefix: string, timestamp: string)
    requires prefix != [] && namePart != [] && namePart != Unnamed
    ensures JoinUnderscore(NameParts(namePart, prefix, true, timestamp)) == prefix + "_" + timestamp + "_" + namePart
  {
    var parts := NameParts(namePart, prefix, true, timestamp);
    assert parts == [prefix, timestamp, namePart];
    assert parts[1..] == [timestamp, namePart];
    assert JoinUnderscore(parts[1..]) == timestamp + "_" + namePart by {
      assert parts[1..][1..] == [namePart];
    }
    assert JoinUnderscore(parts) == prefix + "_" + (timestamp + "_" + namePart);
  }

  /** The joined name is as long as its parts together with one underscore
      between each two. */
  lemma {:induction false} JoinUnderscoreLength(parts: seq<string>)
    ensures |JoinUnderscore(parts)| == SumOfLengths(parts) + (if |parts| == 0 then 0 else |parts| - 1)
  {
    if |parts| > 1 {
      JoinUnderscoreLength(parts[1..]);
    }
  }

  function SumOfLengths(parts: seq<string>): nat
  {
    if |parts| == 0 then 0 else |parts[0]| + SumOfLengths(parts[1..])
  }

  /** Without a prefix or a time, a file whose name part cleaned to
      "unnamed" gets its bare extension as its new name. */
  lemma UnnamedWithoutPrefixIsBareExtension(cleanedFilename: string, timestamp: string)
    requires SplitExt(cleanedFilename).0 == Unnamed
    ensures TimestampFilename(cleanedFilename, [], false, timestamp) == SplitExt(cleanedFilename).1
  {
  }

  // ---------------------------------------------------------------------
  // The names `get_unique_filename` tries

  /** The counter gives up after this many candidates. */
  const MaxCounter: nat := 9999

  function DigitChar(d: nat): char
    requires d < 10
  {
    ('0' as int + d) as char
  }

  /** The decimal digits of n, most significant first. */
  function Decimal(n: nat): (r: string)
    ensures |r| > 0
    ensures n < 10 ==> |r| == 1
    ensures n < 100 ==> |r| <= 2
    ensures n < 1000 ==> |r| <= 3
    ensures forall k :: 0 <= k < |r| ==> '0' <= r[k] <= '9'
  {
    if n < 10 then [DigitChar(n)] else Decimal(n / 10) + [DigitChar(n % 10)]
  }

  function Zeros(m: nat): (r: string)
    ensures |r| == m && forall k :: 0 <= k < m ==> r[k] == '0'
  {
    if m == 0 then [] else Zeros(m - 1) + "0"
  }

  /** `f"{n:03d}"`: the decimal digits left-padded with zeros to three. */
  function Pad3(n: nat): (r: string)
    ensures |r| == if |Decimal(n)| < 3 then 3 else |Decimal(n)|
    ensures n < 1000 ==> |r| == 3
    ensures forall k :: 0 <= k < |r| ==> '0' <= r[k] <= '9'
  {
    var digits := Decimal(n);
    if |digits| < 3 then Zeros(3 - |digits|) + digits else digits
  }

  /** The number a string of decimal digits denotes. */
  function DigitsValue(s: string): int
  {
    if |s| == 0 then 0 else DigitsValue(s[..|s| - 1]) * 10 + (s[|s| - 1] as int - '0' as int)
  }

  lemma {:induction false} DecimalValue(n: nat)
    ensures DigitsValue(Decimal(n)) == n
  {
    if n >= 10 {
      DecimalValue(n / 10);
      var d := Decimal(n);
      assert d[..|d| - 1] == Decimal(n / 10);
    }
  }

  lemma {:induction false} LeadingZerosAddNothing(m: nat, s: string)
    ensures DigitsValue(Zeros(m) + s) == DigitsValue(s)
    decreases m + |s|
  {
    if |s| == 0 {
      assert Zeros(m) + s == Zeros(m);
      if m > 0 {
        assert Zeros(m)[..m - 1] == Zeros(m - 1);
        LeadingZerosAddNothing(m - 1, []);
        assert Zeros(m - 1) + [] == Zeros(m - 1);
      }
    } else {
      var t := Zeros(m) + s;
      assert t[..|t| - 1] == Zeros(m) + s[..|s| - 1];
      LeadingZerosAddNothing(m, s[..|s| - 1]);
    }
  }

  /** Padding keeps the value, so distinct counters give distinct
      suffixes. */
  lemma Pad3Value(n: nat)
    ensures DigitsValue(Pad3(n)) == n
  {
    DecimalValue(n);
    var digits := Decimal(n);
    if |digits| < 3 {
      LeadingZerosAddNothing(3 - |digits|, digits);
    }
  }

  /** The k-th candidate: `f"{name_part}_{k:03d}{ext}"`. */
  function Candidate(namePart: string, ext: string, k: nat): (r: string)
    ensures |r| >= |namePart| + 4 + |ext|
  {
    namePart + "_" + Pad3(k) + ext
  }

  /** Distinct counters give distinct candidates. */
  lemma CandidatesDiffer(namePart: string, ext: string, j: nat, k: nat)
    requires j != k
    ensures Candidate(namePart, ext, j) != Candidate(namePart, ext, k)
  {
    Pad3Value(j);
    Pad3Value(k);
    if |Pad3(j)| == |Pad3(k)| {
      var start := |namePart| + 1;
      assert Candidate(namePart, ext, j)[start..start + |Pad3(j)|] == Pad3(j);
      assert Candidate(namePart, ext, k)[start..start + |Pad3(k)|] == Pad3(k);
    }
  }

  /** The first candidate from the k-th on that is free, or the last one
      when the counter runs out. */
  function FirstFree(existing: set<string>, namePart: string, ext: string, k: nat): string
    requires 1 <= k <= MaxCounter
    decreases MaxCounter - k
  {
    if Candidate(namePart, ext, k) !in existing || k == MaxCounter then Candidate(namePart, ext, k)
    else FirstFree(existing, namePart, ext, k + 1)
  }

  /** The name `get_unique_filename` settles on among the names that exist. */
  function UniqueName(existing: set<string>, desiredName: string): string
  {
    if desiredName !in existing then desiredName
    else FirstFree(existing, SplitExt(desiredName).0, SplitExt(desiredName).1, 1)
  }

  /** The counter at which the search from k stops. */
  lemma {:induction false} FirstFreeIsFirst(existing: set<string>, namePart: string, ext: string, k: nat) returns (m: nat)
    requires 1 <= k <= MaxCounter
    ensures k <= m <= MaxCounter
    ensures FirstFree(existing, namePart, ext, k) == Candidate(namePart, ext, m)
    ensures forall j :: k <= j < m ==> Candidate(namePart, ext, j) in existing
    ensures Candidate(namePart, ext, m) !in existing || m == MaxCounter
    decreases MaxCounter - k
  {
    if Candidate(namePart, ext, k) !in existing || k == MaxCounter {
      m := k;
    } else {
      m := FirstFreeIsFirst(existing, namePart, ext, k + 1);
    }
  }

  /** The desired name when it is free; otherwise the candidate with the
      smallest counter that is free, or the 9999th candidate, taken even if it
      exists, when all of them are taken. */
  lemma UniqueNameIsFirstFree(existing: set<string>, desiredName: string, namePart: string, ext: string)
    requires (namePart, ext) == SplitExt(desiredName)
    ensures desiredName !in existing ==> UniqueName(existing, desiredName) == desiredName
    ensures desiredName in existing ==>
      exists m :: (1 <= m <= MaxCounter
        && UniqueName(existing, desiredName) == Candidate(namePart, ext, m)
        && (forall j :: 1 <= j < m ==> Candidate(namePart, ext, j) in existing)
        && (Candidate(namePart, ext, m) !in existing || m == MaxCounter))
  {
    if desiredName in existing {
      var m := FirstFreeIsFirst(existing, namePart, ext, 1);
    }
  }

  lemma {:induction false} FirstFreeTakenOnlyWhenExhausted(existing: set<string>, namePart: string, ext: string, k: nat)
    requires 1 <= k <= MaxCounter
    requires FirstFree(existing, namePart, ext, k) in existing
    ensures forall j :: k <= j <= MaxCounter ==> Candidate(namePart, ext, j) in existing
    decreases MaxCounter - k
  {
    if k == MaxCounter {
      assert FirstFree(existing, namePart, ext, k) == Candidate(namePart, ext, k);
    } else {
      assert Candidate(namePart, ext, k) in existing;
      assert FirstFree(existing, namePart, ext, k) == FirstFree(existing, namePart, ext, k + 1);
      FirstFreeTakenOnlyWhenExhausted(existing, namePart, ext, k + 1);
    }
  }

  /** The result names an existing file only when the desired name and all
      9999 candidates exist. */
  lemma UniqueNameTakenOnlyWhenExhausted(existing: set<string>, desiredName: string)
    ensures UniqueName(existing, desiredName) in existing ==>
      && desiredName in existing
      && forall j :: 1 <= j <= MaxCounter ==> Candidate(SplitExt(desiredName).0, SplitExt(desiredName).1, j) in existing
  {
    if UniqueName(existing, desiredName) in existing {
      FirstFreeTakenOnlyWhenExhausted(existing, SplitExt(desiredName).0, SplitExt(desiredName).1, 1);
    }
  }

  /** With "", "." and ".." counted as existing, the unique name is none of
      them, and a desired "" or "." becomes the first candidate when that is
      free. */
  lemma UniqueNameAvoidsTheDirectory(names: set<string>, desiredName: string)
    ensures UniqueName(names + {"", ".", ".."}, desiredName) !in {"", ".", ".."}
    ensures var (namePart, ext) := SplitExt(desiredName);
      desiredName in {"", "."} && Candidate(namePart, ext, 1) !in names ==>
        UniqueName(names + {"", ".", ".."}, desiredName) == Candidate(namePart, ext, 1)
  {
    var existing := names + {"", ".", ".."};
    var (namePart, ext) := SplitExt(desiredName);
    if desiredName in existing {
      var m := FirstFreeIsFirst(existing, namePart, ext, 1);
      var c := Candidate(namePart, ext, m);
      assert |c| >= 4;
      assert c != "" && c != "." && c != "..";
      if desiredName in {"", "."} && Candidate(namePart, ext, 1) !in names {
        var c1 := Candidate(namePart, ext, 1);
        assert |c1| >= 4;
        assert c1 !in existing;
        assert FirstFree(existing, namePart, ext, 1) == c1;
      }
    }
  }
}
