/**
 * Title cleaning (`format_title`): the title given to an upload is derived
 * from the Drive file name of the chosen video.
 *
 *   stem  := the file name without its directory part and its last extension
 *   text  := if the stem holds both '[' and ']', what precedes the first '['
 *            with surrounding whitespace stripped, else the stem
 *   text  := if it contains " - " and its first ten characters hold exactly
 *            two '-', what follows the first " - " (a "2025-07-04 - " prefix)
 *   title := ("Simpsons Short - " + text) cut to 95 characters
 *
 * Strings are sequences of code points, as Python's `str` is.
 */
module Titles {
  import opened Options

  const Label: string := "Simpsons Short - "
  const MaxTitleLength: nat := 95
  const DateSeparator: string := " - "
  const DateWidth: nat := 10

  /** t occurs in s as a contiguous run of characters. */
  ghost predicate IsInfix(t: string, s: string) {
    exists i, j :: 0 <= i <= j <= |s| && s[i..j] == t
  }

  /** t is the run of s that starts at index o: the characters of t, in
      order, are those of s from o on. */
  ghost predicate RunAt(t: string, s: string, o: nat) {
    o + |t| <= |s| && forall k :: 0 <= k < |t| ==> t[k] == s[o + k]
  }

  /** A run of a run of s is a run of s. */
  lemma RunOfRun(t: string, m: string, j: nat, s: string, i: nat)
    requires RunAt(t, m, j) && RunAt(m, s, i)
    ensures RunAt(t, s, i + j)
  {
    forall k | 0 <= k < |t| ensures t[k] == s[i + j + k] {
      assert t[k] == m[j + k];
    }
  }

  lemma PrefixIsRun(t: string, s: string)
    requires t <= s
    ensures RunAt(t, s, 0)
  {
  }

  lemma SuffixIsRun(t: string, s: string)
    requires |t| <= |s| && t == s[|s| - |t|..]
    ensures RunAt(t, s, |s| - |t|)
  {
    forall k | 0 <= k < |t| ensures t[k] == s[|s| - |t| + k] {
      assert t[k] == s[|s| - |t|..][k];
    }
  }

  lemma RunIsInfix(t: string, s: string, o: nat)
    requires RunAt(t, s, o)
    ensures IsInfix(t, s)
  {
    assert s[o..o + |t|] == t;
  }

  /** A character absent from s is absent from every run of s. */
  lemma RunAvoids(t: string, s: string, o: nat, c: char)
    requires RunAt(t, s, o) && c !in s
    ensures c !in t
  {
    forall k | 0 <= k < |t| ensures t[k] != c {
      assert t[k] == s[o + k];
    }
  }

  /** The characters for which Python's `str.isspace()` holds; `str.strip()`
      with no argument removes exactly these. */
  predicate IsSpace(c: char)
    ensures c in " \t\n\r" ==> IsSpace(c)
    ensures '!' <= c <= '~' ==> !IsSpace(c)
  {
    var n := c as int;
    n == 0x20 || 0x09 <= n <= 0x0D || 0x1C <= n <= 0x1F || n == 0x85 || n == 0xA0
    || n == 0x1680 || 0x2000 <= n <= 0x200A || n == 0x2028 || n == 0x2029
    || n == 0x202F || n == 0x205F || n == 0x3000
  }

  /** Index of the last occurrence of c in s (Python's `str.rfind`). */
  function LastIndexOf(s: string, c: char): (r: Option<nat>)
    ensures r.None? <==> c !in s
    ensures r.Some? ==> r.value < |s| && s[r.value] == c
    ensures r.Some? ==> forall k :: r.value < k < |s| ==> s[k] != c
  {
    if s == [] then None
    else if s[|s| - 1] == c then Some(|s| - 1)
    else
      assert s == s[..|s| - 1] + [s[|s| - 1]];
      LastIndexOf(s[..|s| - 1], c)
  }

  lemma LastIndexOfIs(s: string, c: char, i: nat)
    requires i < |s| && s[i] == c
    requires forall k :: i < k < |s| ==> s[k] != c
    ensures LastIndexOf(s, c) == Some(i)
  {
  }

  /** The last path component, as POSIX `pathlib` computes `name`: empty
      components and "." components do not count, and a path with no other
      component has the empty name. */
  function BaseName(path: string): (name: string)
    ensures '/' !in name && name != "."
    ensures '/' !in path && path != "." ==> name == path
    decreases |path|
  {
    match LastIndexOf(path, '/')
    case None => if path == "." then "" else path
    case Some(i) =>
      var last := path[i + 1..];
      if last == "" || last == "." then BaseName(path[..i]) else last
  }

  /** The name without its final suffix, as `pathlib` computes `stem`: the
      suffix starts at the last '.', which must be neither the first nor the
      last character. */
  function Stem(name: string): (stem: string)
    ensures stem <= name
    ensures |stem| < |name| ==>
              0 < |stem| < |name| - 1 && name[|stem|] == '.'
              && forall k :: |stem| < k < |name| ==> name[k] != '.'
  {
    match LastIndexOf(name, '.')
    case Some(i) => if 0 < i < |name| - 1 then name[..i] else name
    case None => name
  }

  /** Number of whitespace characters at the start of s. */
  function LeadingSpaces(s: string): (n: nat)
    ensures n <= |s|
    ensures forall k :: 0 <= k < n ==> IsSpace(s[k])
    ensures n < |s| ==> !IsSpace(s[n])
  {
    if s != [] && IsSpace(s[0]) then 1 + LeadingSpaces(s[1..]) else 0
  }

  /** s without its trailing whitespace. */
  function StripTrailing(s: string): (r: string)
    ensures |r| <= |s| && r == s[..|r|]
    ensures forall k :: |r| <= k < |s| ==> IsSpace(s[k])
    ensures r != [] ==> !IsSpace(r[|r| - 1])
  {
    if s != [] && IsSpace(s[|s| - 1]) then StripTrailing(s[..|s| - 1]) else s
  }

  /** Gluing the two halves of the strip: leading whitespace counted in s,
      trailing whitespace removed from what follows it. */
  lemma StripParts(s: string, n: nat, t: string, r: string)
    requires n <= |s| && t == s[n..]
    requires n < |s| ==> !IsSpace(s[n])
    requires |r| <= |t| && r == t[..|r|]
    requires forall k :: |r| <= k < |t| ==> IsSpace(t[k])
    ensures RunAt(r, s, n)
    ensures forall k :: n + |r| <= k < |s| ==> IsSpace(s[k])
    ensures r != [] ==> !IsSpace(r[0])
  {
    forall k | 0 <= k < |r| ensures r[k] == s[n + k] {
      assert r[k] == t[k];
    }
    forall k | n + |r| <= k < |s| ensures IsSpace(s[k]) {
      assert s[k] == t[k - n];
    }
  }

  /** Python's `str.strip()`: r is the run of s that starts after its leading
      whitespace and stops before its trailing whitespace, so that r has no
      whitespace at either end. */
  function Strip(s: string): (r: string)
    ensures RunAt(r, s, LeadingSpaces(s))
    ensures forall k :: LeadingSpaces(s) + |r| <= k < |s| ==> IsSpace(s[k])
    ensures r != [] ==> !IsSpace(r[0]) && !IsSpace(r[|r| - 1])
  {
    var n := LeadingSpaces(s);
    var r := StripTrailing(s[n..]);
    StripParts(s, n, s[n..], r);
    r
  }

  /** `s.split(c)[0]`: what precedes the first c, or all of s. */
  function BeforeFirst(s: string, c: char): (r: string)
    ensures r <= s && c !in r
    ensures |r| < |s| ==> s[|r|] == c
  {
    if s == [] || s[0] == c then [] else [s[0]] + BeforeFirst(s[1..], c)
  }

  /** p occurs in s starting at index k. */
  predicate OccursAt(s: string, p: string, k: nat) {
    k + |p| <= |s| && s[k..k + |p|] == p
  }

  lemma OccursAtTail(s: string, p: string, k: nat)
    requires s != [] && 1 <= k
    ensures OccursAt(s, p, k) <==> OccursAt(s[1..], p, k - 1)
  {
    if k + |p| <= |s| {
      var here, there := s[k..k + |p|], s[1..][k - 1..k - 1 + |p|];
      forall j | 0 <= j < |p| ensures here[j] == there[j] {
        assert s[k + j] == s[1..][k - 1 + j];
      }
      assert here == there;
    }
  }

  /** Index of the first occurrence of p in s (Python's `str.find`). */
  function Find(s: string, p: string): (r: Option<nat>)
    ensures r.Some? ==> OccursAt(s, p, r.value)
    ensures r.Some? ==> forall k: nat :: k < r.value ==> !OccursAt(s, p, k)
    ensures r.None? ==> forall k: nat :: !OccursAt(s, p, k)
    decreases |s|
  {
    if |s| < |p| then None
    else if s[..|p|] == p then Some(0)
    else
      var r := Find(s[1..], p);
      forall k: nat | 1 <= k ensures OccursAt(s, p, k) <==> OccursAt(s[1..], p, k - 1) {
        OccursAtTail(s, p, k);
      }
      match r
      case None => None
      case Some(k) => Some(k + 1)
  }

  /** Number of occurrences of c in s (`s.count(c)` for a one-character c). */
  function CountChar(s: string, c: char): (n: nat)
    ensures n == 0 <==> c !in s
  {
    multiset(s)[c]
  }


  /** The bracket step: when s holds both '[' and ']', the text before the
      first '[' with its surrounding whitespace stripped. */
  function DropBracketed(s: string): (r: string)
    ensures |r| <= |s|
    ensures '[' in s && ']' in s ==> '[' !in r
    ensures !('[' in s && ']' in s) ==> r == s
  {
    if '[' in s && ']' in s then Strip(BeforeFirst(s, '[')) else s
  }

  /** The date step: when s contains " - " and its first ten characters hold
      exactly two '-', everything after the first " - ". */
  function DropDatePrefix(s: string): (r: string)
    ensures |r| <= |s| && r == s[|s| - |r|..]
    ensures CountChar(Truncated(s, DateWidth), '-') != 2 ==> r == s
  {
    match Find(s, DateSeparator)
    case Some(i) =>
      if CountChar(Truncated(s, DateWidth), '-') == 2
      then s[i + |DateSeparator|..]
      else s
    case None => s
  }

  /** The text that follows the label, before truncation. */
  function CleanName(stem: string): (text: string)
    ensures |text| <= |stem|
    ensures '[' in stem && ']' in stem ==> '[' !in text
    ensures !('[' in stem && ']' in stem) && CountChar(Truncated(stem, DateWidth), '-') != 2 ==> text == stem
    ensures !('[' in stem && ']' in stem) && Find(stem, DateSeparator).None? ==> text == stem
  {
    DropDatePrefix(DropBracketed(stem))
  }

  /** `s[:n]`: the first n characters of s, or all of s when shorter. */
  function Truncated(s: string, n: nat): (r: string)
    ensures r <= s && |r| == if |s| <= n then |s| else n
  {
    if |s| <= n then s else s[..n]
  }

  /** `format_title`: the label followed by the cleaned stem, cut to 95 characters. */
  function FormatTitle(fileName: string): (title: string)
    ensures |title| <= MaxTitleLength
    ensures Label <= title
    ensures title[|Label|..] <= CleanName(Stem(BaseName(fileName)))
    ensures |title| == if |Label| + |CleanName(Stem(BaseName(fileName)))| <= MaxTitleLength
                       then |Label| + |CleanName(Stem(BaseName(fileName)))| else MaxTitleLength
  {
    var text := CleanName(Stem(BaseName(fileName)));
    assert (Label + text)[..|Label|] == Label && (Label + text)[|Label|..] == text;
    Truncated(Label + text, MaxTitleLength)
  }

  /** DropBracketed keeps the run of s that starts at offset o. */
  lemma DropBracketedIsRun(s: string) returns (o: nat)
    ensures RunAt(DropBracketed(s), s, o)
  {
    if '[' in s && ']' in s {
      var before := BeforeFirst(s, '[');
      o := LeadingSpaces(before);
      PrefixIsRun(before, s);
      RunOfRun(DropBracketed(s), before, o, s, 0);
    } else {
      o := 0;
      PrefixIsRun(s, s);
    }
  }

  /** A prefix of a suffix of a run of stem is a run of stem. */
  lemma PrefixOfSuffixOfRun(stem: string, b: string, o: nat, clean: string, text: string)
    requires RunAt(b, stem, o)
    requires |clean| <= |b| && clean == b[|b| - |clean|..]
    requires text <= clean
    ensures RunAt(text, stem, o + (|b| - |clean|))
    ensures RunAt(text, b, |b| - |clean|)
  {
    SuffixIsRun(clean, b);
    PrefixIsRun(text, clean);
    RunOfRun(text, clean, 0, b, |b| - |clean|);
    RunOfRun(text, b, |b| - |clean|, stem, o);
  }

  /** The title text is a run of the cleaned name, which is a run of the stem. */
  lemma TitleTextIsRun(fileName: string) returns (o: nat)
    ensures RunAt(FormatTitle(fileName)[|Label|..], Stem(BaseName(fileName)), o)
  {
    var stem := Stem(BaseName(fileName));
    var b := DropBracketedIsRun(stem);
    PrefixOfSuffixOfRun(stem, DropBracketed(stem), b, DropDatePrefix(DropBracketed(stem)), FormatTitle(fileName)[|Label|..]);
    o := b + (|DropBracketed(stem)| - |DropDatePrefix(DropBracketed(stem))|);
  }

  /** The text after the label is a run of characters of the stem, unchanged:
      case, accents and emoji are kept (nothing is re-cased or removed inside it). */
  lemma TitleKeepsStemText(fileName: string)
    ensures IsInfix(FormatTitle(fileName)[|Label|..], Stem(BaseName(fileName)))
  {
    var o := TitleTextIsRun(fileName);
    RunIsInfix(FormatTitle(fileName)[|Label|..], Stem(BaseName(fileName)), o);
  }

  /** A character absent from b is absent from a prefix of a suffix of b. */
  lemma PrefixOfSuffixAvoids(b: string, clean: string, text: string, c: char)
    requires |clean| <= |b| && clean == b[|b| - |clean|..]
    requires text <= clean && c !in b
    ensures c !in text
  {
    SuffixIsRun(clean, b);
    PrefixIsRun(text, clean);
    RunOfRun(text, clean, 0, b, |b| - |clean|);
    RunAvoids(text, b, |b| - |clean|, c);
  }

  /** When the stem holds both brackets, no '[' survives in the title text. */
  lemma TitleDropsBracketedPart(fileName: string)
    requires '[' in Stem(BaseName(fileName)) && ']' in Stem(BaseName(fileName))
    ensures '[' !in FormatTitle(fileName)[|Label|..]
  {
    var b := DropBracketed(Stem(BaseName(fileName)));
    PrefixOfSuffixAvoids(b, DropDatePrefix(b), FormatTitle(fileName)[|Label|..], '[');
  }

  lemma FindAt(s: string, p: string, k: nat)
    requires p != [] && OccursAt(s, p, k) && p[0] !in s[..k]
    ensures Find(s, p) == Some(k)
  {
    forall j: nat | j < k ensures !OccursAt(s, p, j) {
      assert s[..k][j] == s[j];
      assert j + |p| <= |s| ==> s[j..j + |p|][0] == s[j];
    }
  }

  /** A leading "<head> - " is dropped when head has no space and its first
      ten characters hold exactly two '-': an ISO date such as "2025-07-04"
      is one such head, but so is any other, e.g. "X-Men-Dark". */
  lemma DatePrefixDropped(head: string, rest: string)
    requires DateWidth <= |head| && CountChar(head[..DateWidth], '-') == 2 && ' ' !in head
    ensures DropDatePrefix(head + DateSeparator + rest) == rest
  {
    var s := head + DateSeparator + rest;
    assert s[|head|..|head| + 3] == DateSeparator;
    assert s[..DateWidth] == head[..DateWidth];
    assert s[..|head|] == head;
    FindAt(s, DateSeparator, |head|);
    assert s[|head| + 3..] == rest;
  }

  /** Without " - " nothing is dropped, whatever the dashes. */
  lemma NoSeparatorKept(s: string)
    requires forall k: nat :: !OccursAt(s, DateSeparator, k)
    ensures DropDatePrefix(s) == s
  {
  }

  lemma LastIndexOfAt(a: string, c: char, b: string)
    requires c !in b
    ensures LastIndexOf(a + [c] + b, c) == Some(|a|)
  {
    var s := a + [c] + b;
    forall k | |a| < k < |s| ensures s[k] != c {
      assert s[k] == b[k - |a| - 1];
    }
    LastIndexOfIs(s, c, |a|);
  }

  /** The name of "<dir>/<n>" is n, for a last component n that is neither
      empty nor ".". */
  lemma BaseNameOfPath(dir: string, n: string)
    requires '/' !in n && n != "" && n != "."
    ensures BaseName(dir + "/" + n) == n
  {
    LastIndexOfAt(dir, '/', n);
    assert (dir + "/" + n)[|dir| + 1..] == n;
  }

  /** A trailing '/' or "/." does not change the name. */
  lemma TrailingComponentIgnored(dir: string)
    ensures BaseName(dir + "/") == BaseName(dir)
    ensures BaseName(dir + "/.") == BaseName(dir)
  {
    LastIndexOfAt(dir, '/', "");
    assert (dir + "/")[..|dir|] == dir;
    assert dir + "/." == dir + ['/'] + ".";
    LastIndexOfAt(dir, '/', ".");
    assert (dir + "/.")[..|dir|] == dir && (dir + "/.")[|dir| + 1..] == ".";
  }

  lemma BeforeFirstAt(a: string, c: char, b: string)
    requires c !in a
    ensures BeforeFirst(a + [c] + b, c) == a
  {
    var s := a + [c] + b;
    var r := BeforeFirst(s, c);
    assert s[|a|] == c;
    assert forall k :: 0 <= k < |a| ==> s[k] == a[k];
    assert forall k :: 0 <= k < |r| ==> r[k] == s[k];
    assert r == s[..|a|] == a;
  }

  lemma StripOneTrailingSpace(u: string)
    requires u != [] && !IsSpace(u[0]) && !IsSpace(u[|u| - 1])
    ensures Strip(u + " ") == u
  {
    var s := u + " ";
    assert LeadingSpaces(s) == 0;
    assert s[0..] == s && s[..|s| - 1] == u;
    assert StripTrailing(u) == u;
  }

  /** A file name with no directory part and a non-empty extension has the
      part before its last '.' as its stem. */
  lemma StemOfPlainName(stem: string, ext: string)
    requires stem != [] && '/' !in stem && ext != [] && '.' !in ext && '/' !in ext
    ensures Stem(BaseName(stem + ['.'] + ext)) == stem
  {
    var name := stem + ['.'] + ext;
    assert '/' !in name && name != ".";
    LastIndexOfAt(stem, '.', ext);
    assert name[..|stem|] == stem;
  }

  /** The bracket step cuts at the first '[', whatever follows it and
      wherever the ']' is: before the '[' or after it. */
  lemma CutAtFirstBracket(head: string, tail: string)
    requires '[' !in head && (']' in head || ']' in tail)
    ensures DropBracketed(head + "[" + tail) == Strip(head)
  {
    var s := head + "[" + tail;
    assert s == head + ['['] + tail;
    BeforeFirstAt(head, '[', tail);
    assert s[|head|] == '[';
    if ']' in head {
      var k :| 0 <= k < |head| && head[k] == ']';
      assert s[k] == ']';
    } else {
      var k :| 0 <= k < |tail| && tail[k] == ']';
      assert s[|head| + 1 + k] == ']';
    }
  }

  /** A " [<id>]" goes, together with the space before it and whatever
      follows the ']'. */
  lemma BracketedIdDropped(head: string, id: string, after: string)
    requires head != [] && !IsSpace(head[0]) && !IsSpace(head[|head| - 1]) && '[' !in head
    ensures DropBracketed(head + " [" + id + "]" + after) == head
  {
    assert head + " [" + id + "]" + after == (head + " ") + "[" + (id + "]" + after);
    CutAtFirstBracket(head + " ", id + "]" + after);
    StripOneTrailingSpace(head);
  }

  /** A ']' before the '[' also triggers the cut. */
  lemma ClosingBracketFirst(head: string, tail: string)
    requires head == "Homer ] Bart" && tail == "draft"
    ensures DropBracketed(head + " [" + tail) == head
  {
    assert head[6] == ']' && !IsSpace(head[0]) && !IsSpace(head[|head| - 1]);
    assert head + " [" + tail == (head + " ") + "[" + tail;
    CutAtFirstBracket(head + " ", tail);
    StripOneTrailingSpace(head);
  }

  /** Text after the ']' goes with the bracketed id: "Homer [x] Bart" gives "Homer". */
  lemma TextAfterBracketDropped(head: string, id: string, after: string)
    requires head == "Homer" && id == "x" && after == " Bart"
    ensures DropBracketed(head + " [" + id + "]" + after) == "Homer"
  {
    BracketedIdDropped(head, id, after);
  }

  /** The date step keeps what follows the first " - " when the first ten
      characters hold exactly two '-'. */
  lemma DateCutAtFirstSeparator(s: string, i: nat)
    requires OccursAt(s, DateSeparator, i) && forall k: nat :: k < i ==> !OccursAt(s, DateSeparator, k)
    requires CountChar(Truncated(s, DateWidth), '-') == 2
    ensures DropDatePrefix(s) == s[i + |DateSeparator|..]
  {
    match Find(s, DateSeparator)
    case None =>
    case Some(j) =>
      assert !(j < i) && !(i < j);
  }

  /** The stem "<date> - <text> [<id>]" cleans to text. */
  lemma DatedBracketedClean(date: string, text: string, id: string)
    requires |date| == DateWidth && CountChar(date, '-') == 2
    requires ' ' !in date && '[' !in date && !IsSpace(date[0])
    requires text != [] && !IsSpace(text[|text| - 1]) && '[' !in text
    ensures CleanName(date + DateSeparator + text + " [" + id + "]") == text
  {
    var head := date + DateSeparator + text;
    assert head + " [" + id + "]" == date + DateSeparator + text + " [" + id + "]" + "";
    assert head[0] == date[0] && head[|head| - 1] == text[|text| - 1];
    BracketedIdDropped(head, id, "");
    assert date[..DateWidth] == date;
    DatePrefixDropped(date, text);
  }

  /** A file named "<date> - <text> [<id>].<ext>" gets the title
      "Simpsons Short - <text>", cut to 95 characters: the bracketed id, the
      extension and the date prefix all go, and text is kept as it is. */
  lemma DatedBracketedTitle(date: string, text: string, id: string, ext: string)
    requires |date| == DateWidth && CountChar(date, '-') == 2
    requires ' ' !in date && '[' !in date && '/' !in date && !IsSpace(date[0])
    requires text != [] && !IsSpace(text[|text| - 1]) && '[' !in text && '/' !in text
    requires '/' !in id && ext != [] && '.' !in ext && '/' !in ext
    ensures var full := Label + text;
            FormatTitle(date + DateSeparator + text + " [" + id + "]." + ext)
            == if |full| <= MaxTitleLength then full else full[..MaxTitleLength]
  {
    var stem := date + DateSeparator + text + " [" + id + "]";
    assert date + DateSeparator + text + " [" + id + "]." + ext == stem + ['.'] + ext;
    assert '/' !in stem;
    StemOfPlainName(stem, ext);
    DatedBracketedClean(date, text, id);
  }

  lemma FrinkDateCount(date: string)
    requires date == "2025-07-04"
    ensures |date| == DateWidth && CountChar(date, '-') == 2
  {
  }

  lemma FrinkDateChars(date: string)
    requires date == "2025-07-04"
    ensures ' ' !in date && '[' !in date && '/' !in date && !IsSpace(date[0])
  {
  }

  lemma FrinkTextChars(text: string)
    requires text == "LE PROFESSEUR FRINK"
    ensures text != [] && !IsSpace(text[|text| - 1]) && '[' !in text && '/' !in text
    ensures |Label + text| <= MaxTitleLength
  {
  }

  lemma FrinkTailChars(id: string, ext: string)
    requires id == "xYz123" && ext == "mp4"
    ensures '/' !in id && ext != [] && '.' !in ext && '/' !in ext
  {
  }

  lemma FrinkParts(date: string, text: string, id: string, ext: string)
    requires date == "2025-07-04" && text == "LE PROFESSEUR FRINK" && id == "xYz123" && ext == "mp4"
    ensures FormatTitle(date + DateSeparator + text + " [" + id + "]." + ext) == Label + text
  {
    FrinkDateCount(date);
    FrinkDateChars(date);
    FrinkTextChars(text);
    FrinkTailChars(id, ext);
    DatedBracketedTitle(date, text, id, ext);
    assert |Label + text| <= MaxTitleLength;
  }

  lemma FrinkFileName()
    ensures "2025-07-04" + DateSeparator + "LE PROFESSEUR FRINK" + " [" + "xYz123" + "]." + "mp4"
         == "2025-07-04 - LE PROFESSEUR FRINK [xYz123].mp4"
  {
  }

  lemma FrinkTitle()
    ensures Label + "LE PROFESSEUR FRINK" == "Simpsons Short - LE PROFESSEUR FRINK"
  {
  }

  /** The worked example: a dated file with a bracketed id loses the date,
      the id and the extension, and keeps the text's case. */
  lemma FrinkExample()
    ensures FormatTitle("2025-07-04 - LE PROFESSEUR FRINK [xYz123].mp4")
         == "Simpsons Short - LE PROFESSEUR FRINK"
  {
    FrinkParts("2025-07-04", "LE PROFESSEUR FRINK", "xYz123", "mp4");
    FrinkFileName();
    FrinkTitle();
  }
}
