/**
  The rule-based command interpreter: a chat message is lower-cased and
  trimmed, then matched against an ordered list of rules, the first rule that
  fires deciding the command. Each regular expression of the interpreter is
  written out as a matcher with the leftmost, greedy and lazy choices of
  JavaScript's regular-expression engine, backtracking included.
 */
module Commands {
  import opened Text

  /** The structured commands; `names` of `Create` is absent when the
      message gives fewer than two labels. */
  datatype Command =
    | Create(names: Option<seq<string>>)
    | Add(name: string, after: Option<string>)
    | AddMultiple(steps: seq<string>)
    | Remove(target: string)
    | RemoveAll
    | Undo
    | Unknown

  /** Every string a command carries has no upper-case letter. */
  predicate Lowercase(c: Command) {
    match c
    case Create(names) => names.Some? ==> forall k :: 0 <= k < |names.value| ==> NoUpper(names.value[k])
    case Add(name, after) => NoUpper(name) && (after.Some? ==> NoUpper(after.value))
    case AddMultiple(steps) => forall k :: 0 <= k < |steps| ==> NoUpper(steps[k])
    case Remove(target) => NoUpper(target)
    case _ => true
  }

  /** A label produced by splitting a list: nonempty, without white space and without a comma. */
  predicate IsToken(w: string) {
    w != "" && NoSpace(w) && ',' !in w
  }

  // ---------------------------------------------------------------------
  // cleanLabel

  /** `s.replace(/^kw\s+/, "")` when it matches: what follows `kw` and the white space after it. */
  function AfterWord(s: string, kw: string): (r: Option<string>)
    ensures r.Some? ==> IsSuffix(r.value, s) && |r.value| < |s|
    ensures r.Some? <==> StartsWith(s, kw) && |kw| < |s| && IsSpace(s[|kw|])
    ensures NoSpace(s) ==> r.None?
  {
    assert |kw| < |s| ==> s[|kw|] in s;
    if StartsWith(s, kw) && |kw| < |s| && IsSpace(s[|kw|]) then
      var t := TrimStart(s[|kw|..]);
      SuffixTrans(t, s[|kw|..], s);
      Some(t)
    else None
  }

  /** `s.replace(/^kw\s+/, "")` */
  function StripWord(s: string, kw: string): (r: string)
    ensures IsSuffix(r, s)
    ensures NoSpace(s) ==> r == s
  {
    match AfterWord(s, kw)
    case Some(t) => t
    case None => s
  }

  /** The word of `(step|stage|node)` that `s` starts with. */
  function KindWord(s: string): (r: Option<string>)
    ensures r.Some? ==> StartsWith(s, r.value) && |r.value| >= 4
  {
    if StartsWith(s, "step") then Some("step")
    else if StartsWith(s, "stage") then Some("stage")
    else if StartsWith(s, "node") then Some("node")
    else None
  }

  /** `s.replace(/^(step|stage|node)\s+called\s+/, "")` */
  function StripKindCalled(s: string): (r: string)
    ensures IsSuffix(r, s)
    ensures NoSpace(s) ==> r == s
  {
    match KindWord(s)
    case None => s
    case Some(kw) =>
      match AfterWord(s, kw)
      case None => s
      case Some(t) =>
        match AfterWord(t, "called")
        case None => s
        case Some(u) => SuffixTrans(u, t, s); u
  }

  /** `s.replace(/^(step|stage|node)\s+/, "")` */
  function StripKind(s: string): (r: string)
    ensures IsSuffix(r, s)
    ensures NoSpace(s) ==> r == s
  {
    match KindWord(s)
    case None => s
    case Some(kw) => StripWord(s, kw)
  }

  /** `s.replace(/[.,]$/, "")` */
  function DropFinalStop(s: string): (r: string)
    ensures |s| > 0 && (s[|s| - 1] == '.' || s[|s| - 1] == ',') ==> r == s[..|s| - 1]
    ensures !(|s| > 0 && (s[|s| - 1] == '.' || s[|s| - 1] == ',')) ==> r == s
  {
    if |s| > 0 && (s[|s| - 1] == '.' || s[|s| - 1] == ',') then s[..|s| - 1] else s
  }

  /** The leading words cleanLabel strips: "the", "a", "step/stage/node
      called", "step/stage/node" and "called", each once and in that order. */
  function StripLeadWords(t: string): (r: string)
    ensures IsSuffix(r, t)
    ensures NoSpace(t) ==> r == t
  {
    var s1 := StripWord(t, "the");
    var s2 := StripWord(s1, "a");
    var s3 := StripKindCalled(s2);
    var s4 := StripKind(s3);
    var s5 := StripWord(s4, "called");
    SuffixTrans(s2, s1, t);
    SuffixTrans(s3, s2, t);
    SuffixTrans(s4, s3, t);
    SuffixTrans(s5, s4, t);
    s5
  }

  /** Dropping the final stop of a suffix of `t` leaves a suffix of `t`, or
      of `t` without its final stop. */
  lemma DropFinalStopSuffix(s: string, t: string)
    requires IsSuffix(s, t)
    ensures var r := DropFinalStop(s);
      || IsSuffix(r, t)
      || (|t| > 0 && (t[|t| - 1] == '.' || t[|t| - 1] == ',') && IsSuffix(r, t[..|t| - 1]))
  {
    if |s| > 0 && (s[|s| - 1] == '.' || s[|s| - 1] == ',') {
      assert s[|s| - 1] == t[|t| - 1];
      assert t[..|t| - 1][|t| - |s|..] == s[..|s| - 1];
    }
  }

  /** cleanLabel: trims, strips the leading words (`StripLeadWords`), then
      one final full stop or comma. */
  function CleanLabel(raw: string): (r: string)
    ensures var t := Trim(raw);
      || IsSuffix(r, t)
      || (|t| > 0 && (t[|t| - 1] == '.' || t[|t| - 1] == ',') && IsSuffix(r, t[..|t| - 1]))
    ensures NoUpper(raw) ==> NoUpper(r)
    ensures NoSpace(raw) && raw != "" && raw[|raw| - 1] != '.' && raw[|raw| - 1] != ',' ==> r == raw
  {
    var t := Trim(raw);
    var s := StripLeadWords(t);
    DropFinalStopSuffix(s, t);
    CleanLabelLower(raw, t, s);
    CleanLabelWord(raw);
    DropFinalStop(s)
  }

  lemma CleanLabelWord(raw: string)
    ensures NoSpace(raw) && raw != "" && raw[|raw| - 1] != '.' && raw[|raw| - 1] != ',' ==>
            DropFinalStop(StripLeadWords(Trim(raw))) == raw
  {
    if NoSpace(raw) && raw != "" && raw[|raw| - 1] != '.' && raw[|raw| - 1] != ',' {
      NoSpaceTrim(raw);
      StripLeadWordsWord(raw);
    }
  }

  lemma CleanLabelLower(raw: string, t: string, s: string)
    requires t == Trim(raw) && IsSuffix(s, t)
    ensures NoUpper(raw) ==> NoUpper(DropFinalStop(s))
  {
    if NoUpper(raw) {
      SliceChars(t, |t| - |s|, |t|);
      SliceChars(s, 0, |DropFinalStop(s)|);
      assert NoUpper(t);
      assert NoUpper(s);
    }
  }

  lemma StripLeadWordsWord(w: string)
    requires NoSpace(w)
    ensures StripLeadWords(w) == w
  {
  }

  lemma NoSpaceTrim(s: string)
    ensures NoSpace(s) ==> Trim(s) == s && NoSpace(Trim(s))
  {
    if NoSpace(s) && s != "" {
      assert s[0] in s && s[|s| - 1] in s;
      TrimTrimmed(s);
    }
  }

  // ---------------------------------------------------------------------
  // What cleanLabel strips, on phrasings with a one-word label

  /** `^kw\s+` matches at the start of `kw + " " + rest` and leaves `rest`. */
  lemma AfterWordHit(kw: string, rest: string)
    requires rest != "" && !IsSpace(rest[0])
    ensures AfterWord(kw + " " + rest, kw) == Some(rest)
  {
    var s := kw + " " + rest;
    assert s[..|kw|] == kw;
    assert s[|kw|] == ' ';
    assert s[|kw|..] == " " + rest;
    assert (" " + rest)[1..] == rest;
  }

  /** `^kw\s+` does not match a text whose first letter differs from `kw`'s. */
  lemma AfterWordMiss(s: string, kw: string)
    requires s != "" && kw != "" && s[0] != kw[0]
    ensures AfterWord(s, kw).None?
  {
  }

  lemma CleanTrimmed(s: string)
    requires s != "" && !IsSpace(s[0]) && !IsSpace(s[|s| - 1])
    ensures Trim(s) == s
  {
    TrimTrimmed(s);
  }

  /** A text whose first letter differs from `p`'s does not start with `p`. */
  lemma NotStartsWith(s: string, p: string)
    requires s != "" && p != "" && s[0] != p[0]
    ensures !StartsWith(s, p)
  {
    assert |p| <= |s| ==> s[..|p|][0] == s[0];
  }

  /** A text that begins with a kind word followed by a space starts with that word. */
  lemma KindWordHit(kind: string, rest: string)
    requires kind == "step" || kind == "stage" || kind == "node"
    ensures KindWord(kind + " " + rest) == Some(kind)
  {
    var s := kind + " " + rest;
    assert s[..|kind|] == kind;
    if kind == "stage" {
      assert s[2] == 'a';
      assert s[..4][2] == 'a';
    } else if kind == "node" {
      NotStartsWith(s, "step");
      NotStartsWith(s, "stage");
    }
  }

  lemma KindWordMiss(s: string)
    requires s != "" && s[0] != 's' && s[0] != 'n'
    ensures KindWord(s).None?
  {
    NotStartsWith(s, "step");
    NotStartsWith(s, "stage");
    NotStartsWith(s, "node");
  }

  /** The steps of StripLeadWords, one leading word at a time. */
  lemma StripLeadSteps(t: string, s1: string, s2: string, s3: string, s4: string, s5: string)
    requires s1 == StripWord(t, "the") && s2 == StripWord(s1, "a") && s3 == StripKindCalled(s2)
    requires s4 == StripKind(s3) && s5 == StripWord(s4, "called")
    ensures StripLeadWords(t) == s5
  {
  }

  /** The steps of CleanLabel on a text that is already trimmed. */
  lemma CleanSteps(raw: string, s: string, r: string)
    requires Trim(raw) == raw && StripLeadWords(raw) == s && DropFinalStop(s) == r
    ensures CleanLabel(raw) == r
  {
  }

  /** A one-word label with a final stop `p`. */
  lemma StoppedWord(w: string, u: string, p: char)
    requires PlainWord(w) && u == w + [p] && (p == '.' || p == ',')
    ensures NoSpace(u) && u != "" && !IsSpace(u[0]) && !IsSpace(u[|u| - 1])
    ensures DropFinalStop(u) == w
  {
    PlainWordFacts(w);
    assert forall c | c in u :: c in w || c == p;
    assert u[0] in u;
    assert u[..|u| - 1] == w;
  }

  /** "the step called X." cleans to X: the article, the kind word with
      "called", and the final full stop all go. */
  lemma CleanLabelKindCalled(kind: string, w: string)
    requires kind == "step" || kind == "stage" || kind == "node"
    requires PlainWord(w)
    ensures CleanLabel("the " + kind + " called " + w + ".") == w
  {
    var u := w + ".";
    StoppedWord(w, u, '.');
    var t := "called" + " " + u;
    var s1 := kind + " " + t;
    var s := "the" + " " + s1;
    assert s == "the " + kind + " called " + w + ".";
    assert s[0] == 't' && s[|s| - 1] == '.';
    CleanTrimmed(s);
    KindCalledLead(kind, u, t, s1, s);
    CleanSteps(s, u, w);
  }

  lemma KindCalledLead(kind: string, u: string, t: string, s1: string, s: string)
    requires kind == "step" || kind == "stage" || kind == "node"
    requires NoSpace(u) && u != "" && !IsSpace(u[0])
    requires t == "called" + " " + u && s1 == kind + " " + t && s == "the" + " " + s1
    ensures StripLeadWords(s) == u
  {
    AfterWordHit("the", s1);
    AfterWordMiss(s1, "a");
    KindCalledStrip(kind, u, t, s1);
    StripLeadSteps(s, s1, s1, u, u, u);
  }

  lemma KindCalledStrip(kind: string, u: string, t: string, s1: string)
    requires kind == "step" || kind == "stage" || kind == "node"
    requires u != "" && !IsSpace(u[0])
    requires t == "called" + " " + u && s1 == kind + " " + t
    ensures StripKindCalled(s1) == u
  {
    KindWordHit(kind, t);
    AfterWordHit(kind, t);
    AfterWordHit("called", u);
  }

  /** "a step X," cleans to X: the article, the kind word and the final
      comma go. */
  lemma CleanLabelArticleKind(kind: string, w: string)
    requires kind == "step" || kind == "stage" || kind == "node"
    requires PlainWord(w)
    ensures CleanLabel("a " + kind + " " + w + ",") == w
  {
    var u := w + ",";
    StoppedWord(w, u, ',');
    var s1 := kind + " " + u;
    var s := "a" + " " + s1;
    assert s == "a " + kind + " " + w + ",";
    assert s[0] == 'a' && s[|s| - 1] == ',';
    CleanTrimmed(s);
    ArticleKindLead(kind, u, s1, s);
    CleanSteps(s, u, w);
  }

  lemma ArticleKindLead(kind: string, u: string, s1: string, s: string)
    requires kind == "step" || kind == "stage" || kind == "node"
    requires NoSpace(u) && u != "" && !IsSpace(u[0])
    requires s1 == kind + " " + u && s == "a" + " " + s1
    ensures StripLeadWords(s) == u
  {
    AfterWordMiss(s, "the");
    AfterWordHit("a", s1);
    KindStrip(kind, u, s1);
    StripLeadSteps(s, s, s1, s1, u, u);
  }

  lemma KindStrip(kind: string, u: string, s1: string)
    requires kind == "step" || kind == "stage" || kind == "node"
    requires NoSpace(u) && u != "" && !IsSpace(u[0])
    requires s1 == kind + " " + u
    ensures StripKindCalled(s1) == s1 && StripKind(s1) == u
  {
    KindWordHit(kind, u);
    AfterWordHit(kind, u);
    assert AfterWord(u, "called").None?;
  }

  /** Each leading word goes at most once: "the the X" cleans to "the X". */
  lemma CleanLabelOnce(w: string)
    requires PlainWord(w)
    ensures CleanLabel("the the " + w) == "the " + w
  {
    var s1 := "the" + " " + w;
    var s := "the" + " " + s1;
    assert s1 == "the " + w;
    assert s == "the the " + w;
    OnceEnds(w, s1, s);
    OnceLead(w, s1, s);
    CleanSteps(s, s1, s1);
  }

  /** "the the X" is trimmed, and "the X" has no final stop to drop. */
  lemma OnceEnds(w: string, s1: string, s: string)
    requires PlainWord(w) && s1 == "the" + " " + w && s == "the" + " " + s1
    ensures w != "" && !IsSpace(w[0])
    ensures Trim(s) == s && DropFinalStop(s1) == s1
  {
    PlainWordFacts(w);
    assert w[0] in w && w[|w| - 1] in w;
    assert s[0] == 't' && s[|s| - 1] == w[|w| - 1];
    assert s1[|s1| - 1] == w[|w| - 1];
    CleanTrimmed(s);
  }


  lemma OnceLead(w: string, s1: string, s: string)
    requires w != "" && !IsSpace(w[0])
    requires s1 == "the" + " " + w && s == "the" + " " + s1
    ensures StripLeadWords(s) == s1
  {
    AfterWordHit("the", s1);
    AfterWordMiss(s1, "a");
    AfterWordMiss(s1, "called");
    KindWordMiss(s1);
    StripLeadSteps(s, s1, s1, s1, s1, s1);
  }

  // ---------------------------------------------------------------------
  // Lists of labels

  /** `s.replace(/\band\b/g, ",")` on what follows the character `prev`
      (None at the start of the string). */
  function ReplaceAnd(s: string, prev: Option<char>): (r: string)
    decreases |s|
    ensures forall c | c in r :: c in s || c == ','
  {
    if |s| == 0 then ""
    else if AndWordAt(s, prev) then "," + ReplaceAnd(s[3..], Some('d'))
    else [s[0]] + ReplaceAnd(s[1..], Some(s[0]))
  }

  /** The word "and" begins `s` with a word boundary on either side. */
  predicate AndWordAt(s: string, prev: Option<char>) {
    StartsWith(s, "and") && (prev.None? || !IsWordChar(prev.value)) && (|s| == 3 || !IsWordChar(s[3]))
  }

  /** An "&" begins `s` with a word boundary on either side: it stands
      between two word characters. */
  predicate AmpWordAt(s: string, prev: Option<char>) {
    |s| >= 2 && s[0] == '&' && prev.Some? && IsWordChar(prev.value) && IsWordChar(s[1])
  }

  /** `s.replace(/\b(and|&)\b/g, ",")` on what follows the character `prev`. */
  function ReplaceAndAmp(s: string, prev: Option<char>): (r: string)
    decreases |s|
    ensures forall c | c in r :: c in s || c == ','
  {
    if |s| == 0 then ""
    else if AndWordAt(s, prev) then "," + ReplaceAndAmp(s[3..], Some('d'))
    else if AmpWordAt(s, prev) then "," + ReplaceAndAmp(s[1..], Some('&'))
    else [s[0]] + ReplaceAndAmp(s[1..], Some(s[0]))
  }

  /** `s.replace(/&/g, ",")` */
  function ReplaceAmp(s: string): (r: string)
    ensures |r| == |s| && '&' !in r
    ensures forall k :: 0 <= k < |s| ==> r[k] == (if s[k] == '&' then ',' else s[k])
    ensures forall c | c in r :: c in s || c == ','
  {
    seq(|s|, k requires 0 <= k < |s| => if s[k] == '&' then ',' else s[k])
  }

  /** `.filter(Boolean)` on strings */
  function NonEmpty(ws: seq<string>): (r: seq<string>)
    ensures forall k :: 0 <= k < |r| ==> r[k] != "" && r[k] in ws
    ensures forall w | w in ws && w != "" :: w in r
  {
    if |ws| == 0 then []
    else if ws[0] == "" then NonEmpty(ws[1..])
    else [ws[0]] + NonEmpty(ws[1..])
  }

  /** `.flatMap(s => s.trim().split(/\s+/))` */
  function WordsOf(pieces: seq<string>): (r: seq<string>)
    decreases |pieces|
    ensures forall k :: 0 <= k < |r| ==> NoSpace(r[k])
  {
    if |pieces| == 0 then [] else SplitWs(Trim(pieces[0])) + WordsOf(pieces[1..])
  }

  /** A character absent from every piece is absent from every word. */
  lemma {:induction false} WordsOfLacks(pieces: seq<string>, c: char)
    requires forall j :: 0 <= j < |pieces| ==> c !in pieces[j]
    ensures forall k :: 0 <= k < |WordsOf(pieces)| ==> c !in WordsOf(pieces)[k]
  {
    if |pieces| > 0 {
      var ws := SplitWs(Trim(pieces[0]));
      PieceLacks(pieces[0], ws, c);
      WordsOfLacks(pieces[1..], c);
      ConcatLacks(ws, WordsOf(pieces[1..]), c);
    }
  }

  lemma PieceLacks(p: string, ws: seq<string>, c: char)
    requires c !in p && ws == SplitWs(Trim(p))
    ensures forall k :: 0 <= k < |ws| ==> c !in ws[k]
  {
    assert forall k :: 0 <= k < |ws| ==> CharsFrom(ws[k], p);
  }

  lemma ConcatLacks(a: seq<string>, b: seq<string>, c: char)
    requires forall k :: 0 <= k < |a| ==> c !in a[k]
    requires forall k :: 0 <= k < |b| ==> c !in b[k]
    ensures forall k :: 0 <= k < |a + b| ==> c !in (a + b)[k]
  {
    forall k | 0 <= k < |a + b| ensures c !in (a + b)[k] {
      if k < |a| { assert (a + b)[k] == a[k]; } else { assert (a + b)[k] == b[k - |a|]; }
    }
  }

  /** The words of a lower-case piece are lower-case. */
  lemma PieceLower(p: string, ws: seq<string>)
    requires NoUpper(p) && ws == SplitWs(Trim(p))
    ensures forall k :: 0 <= k < |ws| ==> NoUpper(ws[k])
  {
    assert forall k :: 0 <= k < |ws| ==> CharsFrom(ws[k], p);
  }

  lemma ConcatLower(a: seq<string>, b: seq<string>)
    requires forall k :: 0 <= k < |a| ==> NoUpper(a[k])
    requires forall k :: 0 <= k < |b| ==> NoUpper(b[k])
    ensures forall k :: 0 <= k < |a + b| ==> NoUpper((a + b)[k])
  {
    forall k | 0 <= k < |a + b| ensures NoUpper((a + b)[k]) {
      if k < |a| { assert (a + b)[k] == a[k]; } else { assert (a + b)[k] == b[k - |a|]; }
    }
  }

  /** Words of lower-case pieces are lower case. */
  lemma {:induction false} WordsOfLower(pieces: seq<string>)
    requires forall j :: 0 <= j < |pieces| ==> NoUpper(pieces[j])
    ensures forall k :: 0 <= k < |WordsOf(pieces)| ==> NoUpper(WordsOf(pieces)[k])
  {
    if |pieces| > 0 {
      var ws := SplitWs(Trim(pieces[0]));
      PieceLower(pieces[0], ws);
      WordsOfLower(pieces[1..]);
      ConcatLower(ws, WordsOf(pieces[1..]));
    }
  }

  /** `.split(",").flatMap(s => s.trim().split(/\s+/)).filter(Boolean)`: the labels of a list. */
  function Tokens(s: string): (r: seq<string>)
    ensures forall k :: 0 <= k < |r| ==> IsToken(r[k])
    ensures NoUpper(s) ==> forall k :: 0 <= k < |r| ==> NoUpper(r[k])
  {
    var pieces := Split(s, ',');
    WordsOfLacks(pieces, ',');
    if NoUpper(s) then WordsOfLower(pieces); NonEmpty(WordsOf(pieces))
    else NonEmpty(WordsOf(pieces))
  }

  // ---------------------------------------------------------------------
  // The create rule

  /** `s.replace(/^(steps?|labels?|points?)\s*:?\s*\/, "")` */
  function StripListMarker(s: string): (r: string)
    ensures IsSuffix(r, s)
  {
    var k := if StartsWith(s, "step") then 4 else if StartsWith(s, "label") || StartsWith(s, "point") then 5 else 0;
    if k == 0 then s
    else
      var k1 := if k < |s| && s[k] == 's' then k + 1 else k;
      var t := TrimStart(s[k1..]);
      SuffixTrans(t, s[k1..], s);
      if |t| > 0 && t[0] == ':' then
        var u := TrimStart(t[1..]);
        SuffixTrans(u, t[1..], t);
        SuffixTrans(u, t, s);
        u
      else t
  }

  /** The labels of "create ... with a, b and c": present when there are at least two. */
  function CreateNames(text: string): (r: Option<seq<string>>)
    ensures r.Some? ==> |r.value| >= 2 && forall k :: 0 <= k < |r.value| ==> IsToken(r.value[k])
    ensures r.Some? && NoUpper(text) ==> forall k :: 0 <= k < |r.value| ==> NoUpper(r.value[k])
  {
    match IndexOf(text, "with ")
    case None => None
    case Some(w) =>
      CreateListLower(text, w + 5);
      ListNames(CreateList(text[w + 5..]))
  }

  /** The labels of the list after "with ", once "and" and "&" have become commas. */
  function ListNames(list: string): (r: Option<seq<string>>)
    ensures r.Some? ==> |r.value| >= 2 && forall k :: 0 <= k < |r.value| ==> IsToken(r.value[k])
    ensures r.Some? && NoUpper(ReplaceAmp(ReplaceAnd(list, None))) ==> forall k :: 0 <= k < |r.value| ==> NoUpper(r.value[k])
  {
    var names := Tokens(ReplaceAmp(ReplaceAnd(list, None)));
    var names' := if |names| == 1 then SplitWs(names[0]) else names;
    SingleTokenResplit(names);
    if |names'| >= 2 then Some(names') else None
  }

  /** The re-split of a single label on white space gives it back unchanged. */
  lemma SingleTokenResplit(names: seq<string>)
    requires forall k :: 0 <= k < |names| ==> IsToken(names[k])
    ensures |names| == 1 ==> SplitWs(names[0]) == names
  {
  }

  /** What follows "with ", trimmed and without its list marker. */
  function CreateList(rest: string): (r: string)
  {
    StripListMarker(Trim(rest))
  }

  lemma CreateListLower(text: string, i: nat)
    requires i <= |text|
    ensures NoUpper(text) ==> NoUpper(ReplaceAmp(ReplaceAnd(CreateList(text[i..]), None)))
  {
    if NoUpper(text) {
      var rest := Trim(text[i..]);
      var list := CreateList(text[i..]);
      SliceChars(text, i, |text|);
      SliceChars(rest, |rest| - |list|, |rest|);
      assert NoUpper(rest);
      assert NoUpper(list);
      ListLower(list);
    }
  }

  lemma ListLower(list: string)
    requires NoUpper(list)
    ensures NoUpper(ReplaceAmp(ReplaceAnd(list, None)))
  {
  }

  /** The create rule: any message that mentions "create". */
  function CreateRule(text: string): (r: Option<Command>)
    ensures r.Some? <==> Contains(text, "create")
    ensures r.Some? ==> r.value.Create?
    ensures r.Some? && r.value.names.Some? ==>
              |r.value.names.value| >= 2 && forall k :: 0 <= k < |r.value.names.value| ==> IsToken(r.value.names.value[k])
    ensures r.Some? && NoUpper(text) ==> Lowercase(r.value)
  {
    if Contains(text, "create") then Some(Create(CreateNames(text))) else None
  }

  // ---------------------------------------------------------------------
  // The between rule: /add (.+) between (.+) and (.+)/

  /** The largest index `i` with `lo <= i < hi` where `p` occurs in `s`. */
  function LastIndexBelow(s: string, p: string, lo: nat, hi: nat): (r: Option<nat>)
    decreases hi
    ensures r.Some? ==> lo <= r.value < hi && OccursAt(s, p, r.value)
    ensures r.Some? ==> forall j :: r.value < j < hi ==> !OccursAt(s, p, j)
    ensures r.None? ==> forall j :: lo <= j < hi ==> !OccursAt(s, p, j)
  {
    if hi <= lo then None
    else if OccursAt(s, p, hi - 1) then Some(hi - 1)
    else LastIndexBelow(s, p, lo, hi - 1)
  }

  /** In the line `l`, the greedy " and " that closes a " between " at `b`:
      the second and third groups must be nonempty. */
  function AndAfter(l: string, b: nat): (r: Option<nat>)
    ensures r.Some? ==> b + 10 <= r.value && r.value + 5 < |l| && OccursAt(l, " and ", r.value)
    ensures r.None? ==> forall a :: b + 10 <= a && a + 5 < |l| ==> !OccursAt(l, " and ", a)
  {
    if |l| < 5 then None else LastIndexBelow(l, " and ", b + 10, |l| - 5)
  }

  /** The greedy " between " of the line `l` (below `hi`) that an " and " can close. */
  function BetweenBelow(l: string, hi: nat): (r: Option<(nat, nat)>)
    decreases hi
    ensures r.Some? ==> 1 <= r.value.0 < hi && OccursAt(l, " between ", r.value.0)
                        && AndAfter(l, r.value.0) == Some(r.value.1)
    ensures r.Some? ==> forall b :: r.value.0 < b < hi && OccursAt(l, " between ", b) ==> AndAfter(l, b).None?
    ensures r.None? ==> forall b :: 1 <= b < hi && OccursAt(l, " between ", b) ==> AndAfter(l, b).None?
  {
    if hi <= 1 then None
    else if OccursAt(l, " between ", hi - 1) && AndAfter(l, hi - 1).Some? then Some((hi - 1, AndAfter(l, hi - 1).value))
    else BetweenBelow(l, hi - 1)
  }

  /** The match of the between rule starting at `p`: its first two groups. */
  function BetweenAt(s: string, p: nat): (r: Option<(string, string)>)
    requires p <= |s|
    ensures r.Some? ==> OccursAt(s, "add ", p) && Group(r.value.0, s) && Contains(s, r.value.1)
  {
    if OccursAt(s, "add ", p) then
      var e := LineEnd(s, p + 4);
      var l := s[p + 4..e];
      match BetweenBelow(l, |l|)
      case None => None
      case Some((b, a)) =>
        SliceGroup(s, p + 4, e, 0, b);
        SliceGroup(s, p + 4, e, b + 9, a);
        Some((l[..b], l[b + 9..a]))
    else None
  }

  /** A slice of a slice is part of the whole string. */
  lemma SliceGroup(s: string, i: nat, j: nat, m: nat, n: nat)
    requires i <= j <= |s| && m <= n <= j - i
    ensures Contains(s, s[i..j][m..n])
  {
    SliceOfSlice(s, i, j, m, n);
    ContainsSlice(s, i + m, i + n);
  }

  /** The leftmost match of the between rule at or after `p`. */
  function BetweenSearch(s: string, p: nat): (r: Option<(string, string)>)
    requires p <= |s|
    decreases |s| - p
    ensures r.Some? ==> Contains(s, " between ") && Contains(s, " and ") && Contains(s, "add ")
    ensures r.Some? ==> Group(r.value.0, s) && Contains(s, r.value.1)
  {
    match BetweenAt(s, p)
    case Some(g) =>
      var e := LineEnd(s, p + 4);
      var l := s[p + 4..e];
      var ba := BetweenBelow(l, |l|).value;
      OccursInSlice(s, p + 4, e, " between ", ba.0);
      OccursInSlice(s, p + 4, e, " and ", ba.1);
      FoundAt(s, "add ", p);
      Some(g)
    case None => if p == |s| then None else BetweenSearch(s, p + 1)
  }

  /** The between rule: "add X between Y and Z" adds X after Y. */
  function BetweenRule(text: string): (r: Option<Command>)
    ensures r.Some? ==> r.value.Add? && r.value.after.Some?
    ensures r.Some? ==> Contains(text, " between ") && Contains(text, " and ") && Contains(text, "add ")
    ensures r.Some? && NoUpper(text) ==> Lowercase(r.value)
  {
    match BetweenSearch(text, 0)
    case Some((g1, g2)) =>
      ContainsChars(text, g1);
      ContainsChars(text, g2);
      Some(Add(Trim(g1), Some(Trim(g2))))
    case None => None
  }

  // ---------------------------------------------------------------------
  // The multi-add rule: /add\s+(?:\d+\s*)?(?:steps?|stages?|nodes?)?\s*(.+)/

  /** A capture group of a match in `s`: nonempty and part of `s`. */
  predicate Group(g: string, s: string) {
    g != "" && Contains(s, g)
  }

  /** `(.+)` at `q`: greedy, so up to the end of the line. */
  function RestOfLine(s: string, q: nat): (r: Option<string>)
    requires q <= |s|
    ensures r.Some? ==> Group(r.value, s)
    ensures r.Some? <==> q < |s| && !IsLineTerminator(s[q])
  {
    if q < |s| && !IsLineTerminator(s[q]) then
      ContainsSlice(s, q, LineEnd(s, q));
      Some(s[q..LineEnd(s, q)])
    else None
  }

  /** `\s*(.+)` where the white space run starting at `q` is taken as far as
      `k` first, then given back one character at a time. */
  function SpacesThenRest(s: string, q: nat, k: nat): (r: Option<string>)
    requires q <= k <= |s|
    decreases k
    ensures r.Some? ==> Group(r.value, s)
  {
    match RestOfLine(s, k)
    case Some(g) => Some(g)
    case None => if k == q then None else SpacesThenRest(s, q, k - 1)
  }

  /** `\s*(.+)` at `q` */
  function OptSpacesThenRest(s: string, q: nat): (r: Option<string>)
    requires q <= |s|
    ensures r.Some? ==> Group(r.value, s)
  {
    SpacesThenRest(s, q, SpaceRunEnd(s, q))
  }

  /** The length of the `step`, `stage` or `node` at `q`, 0 when none is there. */
  function KindLength(s: string, q: nat): (n: nat)
    requires q <= |s|
    ensures q + n <= |s|
  {
    if StartsWith(s[q..], "step") || StartsWith(s[q..], "node") then 4
    else if StartsWith(s[q..], "stage") then 5
    else 0
  }

  /** `(?:steps?|stages?|nodes?)?\s*(.+)` at `q`: the kind with its plural
      "s", then the kind alone, then no kind at all. */
  function KindThenRest(s: string, q: nat): (r: Option<string>)
    requires q <= |s|
    ensures r.Some? ==> Group(r.value, s)
  {
    var n := KindLength(s, q);
    var plural := if n > 0 && q + n < |s| && s[q + n] == 's' then OptSpacesThenRest(s, q + n + 1) else None;
    var single := if n > 0 then OptSpacesThenRest(s, q + n) else None;
    if plural.Some? then plural
    else if single.Some? then single
    else OptSpacesThenRest(s, q)
  }

  /** `\s*` after a count that ends at `d`, the run taken as far as `k` first. */
  function SpacesThenKind(s: string, d: nat, k: nat): (r: Option<string>)
    requires d <= k <= |s|
    decreases k
    ensures r.Some? ==> Group(r.value, s)
  {
    var g := KindThenRest(s, k);
    if g.Some? then g
    else if k == d then None
    else SpacesThenKind(s, d, k - 1)
  }

  /** `\d+\s*` with the digits starting at `q` taken as far as `d` first. */
  function CountThenKind(s: string, q: nat, d: nat): (r: Option<string>)
    requires q < d <= |s|
    decreases d
    ensures r.Some? ==> Group(r.value, s)
  {
    var g := SpacesThenKind(s, d, SpaceRunEnd(s, d));
    if g.Some? then g
    else if d == q + 1 then None
    else CountThenKind(s, q, d - 1)
  }

  /** The end of the run of digits that starts at `q`. */
  function DigitRunEnd(s: string, q: nat): (d: nat)
    requires q <= |s|
    decreases |s| - q
    ensures q <= d <= |s|
  {
    if q == |s| || !IsDigit(s[q]) then q else DigitRunEnd(s, q + 1)
  }

  /** `(?:\d+\s*)?` and what follows it, at `q`: with a count first, then without. */
  function CountThenRest(s: string, q: nat): (r: Option<string>)
    requires q <= |s|
    ensures r.Some? ==> Group(r.value, s)
  {
    var d := DigitRunEnd(s, q);
    var counted := if q < d then CountThenKind(s, q, d) else None;
    if counted.Some? then counted else KindThenRest(s, q)
  }

  /** `\s+` after "add", the run starting at `q` taken as far as `k` first. */
  function AddSpacesThen(s: string, q: nat, k: nat): (r: Option<string>)
    requires q < k <= |s|
    decreases k
    ensures r.Some? ==> Group(r.value, s)
  {
    var g := CountThenRest(s, k);
    if g.Some? then g
    else if k == q + 1 then None
    else AddSpacesThen(s, q, k - 1)
  }

  /** The capture group of a multi-add match starting at `p`. */
  function MultiAddAt(s: string, p: nat): (r: Option<string>)
    requires p <= |s|
    ensures r.Some? ==> Group(r.value, s) && OccursAt(s, "add", p)
  {
    if OccursAt(s, "add", p) && p + 3 < |s| && IsSpace(s[p + 3]) then
      AddSpacesThen(s, p + 3, SpaceRunEnd(s, p + 3))
    else None
  }

  /** The leftmost multi-add match at or after `p`. */
  function MultiAddSearch(s: string, p: nat): (r: Option<string>)
    requires p <= |s|
    decreases |s| - p
    ensures r.Some? ==> Group(r.value, s) && Contains(s, "add")
  {
    match MultiAddAt(s, p)
    case Some(g) => FoundAt(s, "add", p); Some(g)
    case None => if p == |s| then None else MultiAddSearch(s, p + 1)
  }

  /** The multi-add rule: "add a, b and c" adds several steps; it fires only
      when the captured list holds a comma, " and " or "&" and splits into
      more than one label. */
  function MultiAddRule(text: string): (r: Option<Command>)
    ensures r.Some? ==> r.value.AddMultiple? && |r.value.steps| >= 2
    ensures r.Some? ==> forall k :: 0 <= k < |r.value.steps| ==> IsToken(r.value.steps[k])
    ensures r.Some? ==> Contains(text, "add")
    ensures r.Some? ==> Contains(text, ",") || Contains(text, " and ") || Contains(text, "&")
    ensures r.Some? && NoUpper(text) ==> Lowercase(r.value)
  {
    match MultiAddSearch(text, 0)
    case None => None
    case Some(g) =>
      var raw := StripWord(Trim(g), "called");
      if Contains(raw, ",") || Contains(raw, " and ") || Contains(raw, "&") then
        MultiAddFacts(text, g, raw);
        var steps := Tokens(ReplaceAndAmp(raw, None));
        if |steps| > 1 then Some(AddMultiple(steps)) else None
      else None
  }

  lemma MultiAddFacts(text: string, g: string, raw: string)
    requires Group(g, text) && raw == StripWord(Trim(g), "called")
    ensures Contains(text, raw)
    ensures NoUpper(text) ==> NoUpper(ReplaceAndAmp(raw, None))
    ensures Contains(raw, ",") ==> Contains(text, ",")
    ensures Contains(raw, " and ") ==> Contains(text, " and ")
    ensures Contains(raw, "&") ==> Contains(text, "&")
  {
    GroupRaw(text, g, Trim(g), raw);
    ContainsChars(text, raw);
    ContainsLift(text, raw, ",");
    ContainsLift(text, raw, " and ");
    ContainsLift(text, raw, "&");
  }

  lemma GroupRaw(text: string, g: string, t: string, raw: string)
    requires Group(g, text) && Contains(g, t) && IsSuffix(raw, t)
    ensures Contains(text, raw)
  {
    ContainsSlice(t, |t| - |raw|, |t|);
    assert t[|t| - |raw|..|t|] == raw;
    ContainsTrans(g, t, raw);
    ContainsTrans(text, g, raw);
  }

  lemma ContainsLift(s: string, r: string, p: string)
    requires Contains(s, r)
    ensures Contains(r, p) ==> Contains(s, p)
  {
    if Contains(r, p) { ContainsTrans(s, r, p); }
  }

  // ---------------------------------------------------------------------
  // The add rule: /add (.+?)(?: after (.+))?$/

  /** The groups of an add match starting at `p`: the lazy label group ends
      at the first " after " that leaves a nonempty rest, else at the end. */
  function AddAt(s: string, p: nat): (r: Option<(string, Option<string>)>)
    requires p <= |s|
    ensures r.Some? ==> Group(r.value.0, s) && OccursAt(s, "add ", p)
    ensures r.Some? && r.value.1.Some? ==> Group(r.value.1.value, s) && Contains(s, " after ")
    ensures r.Some? && r.value.1.None? ==> r.value.0 == s[p + 4..]
  {
    if OccursAt(s, "add ", p) && p + 4 < |s| && NoLineTerminator(s[p + 4..]) then
      var rest := s[p + 4..];
      ContainsSlice(s, p + 4, |s|);
      assert s[p + 4..|s|] == rest;
      match IndexFrom(rest, " after ", 1)
      case Some(i) =>
        if i + 7 < |rest| then
          ContainsSlice(rest, 0, i);
          ContainsSlice(rest, i + 7, |rest|);
          assert rest[0..i] == rest[..i] && rest[i + 7..|rest|] == rest[i + 7..];
          ContainsTrans(s, rest, rest[..i]);
          ContainsTrans(s, rest, rest[i + 7..]);
          FoundAt(rest, " after ", i);
          ContainsTrans(s, rest, " after ");
          Some((rest[..i], Some(rest[i + 7..])))
        else Some((rest, None))
      case None => Some((rest, None))
    else None
  }

  /** The leftmost add match at or after `p`. */
  function AddSearch(s: string, p: nat): (r: Option<(string, Option<string>)>)
    requires p <= |s|
    decreases |s| - p
    ensures r.Some? ==> Group(r.value.0, s) && Contains(s, "add ")
    ensures r.Some? && r.value.1.Some? ==> Group(r.value.1.value, s) && Contains(s, " after ")
  {
    match AddAt(s, p)
    case Some(g) => FoundAt(s, "add ", p); Some(g)
    case None => if p == |s| then None else AddSearch(s, p + 1)
  }

  /** The add rule: "add X" or "add X after Y", both labels cleaned. */
  function AddRule(text: string): (r: Option<Command>)
    ensures r.Some? ==> r.value.Add? && Contains(text, "add ")
    ensures r.Some? && !Contains(text, " after ") ==> r.value.after.None?
    ensures r.Some? && NoUpper(text) ==> Lowercase(r.value)
  {
    match AddSearch(text, 0)
    case None => None
    case Some((g1, g2)) =>
      ContainsChars(text, g1);
      if g2.Some? then
        ContainsChars(text, g2.value);
        Some(Add(CleanLabel(g1), Some(CleanLabel(g2.value))))
      else Some(Add(CleanLabel(g1), None))
  }

  // ---------------------------------------------------------------------
  // The remove rule: /remove (.+)$/

  /** The group of a remove match starting at `p`. */
  function RemoveAt(s: string, p: nat): (r: Option<string>)
    requires p <= |s|
    ensures r.Some? ==> Group(r.value, s) && OccursAt(s, "remove ", p)
  {
    if OccursAt(s, "remove ", p) && p + 7 < |s| && NoLineTerminator(s[p + 7..]) then
      ContainsSlice(s, p + 7, |s|);
      assert s[p + 7..|s|] == s[p + 7..];
      Some(s[p + 7..])
    else None
  }

  /** The leftmost remove match at or after `p`. */
  function RemoveSearch(s: string, p: nat): (r: Option<string>)
    requires p <= |s|
    decreases |s| - p
    ensures r.Some? ==> Group(r.value, s) && Contains(s, "remove ")
  {
    match RemoveAt(s, p)
    case Some(g) => FoundAt(s, "remove ", p); Some(g)
    case None => if p == |s| then None else RemoveSearch(s, p + 1)
  }

  /** The remove rule: "remove X" removes the step labelled X, cleaned. */
  function RemoveRule(text: string): (r: Option<Command>)
    ensures r.Some? ==> r.value.Remove? && Contains(text, "remove ")
    ensures r.Some? && NoUpper(text) ==> Lowercase(r.value)
  {
    match RemoveSearch(text, 0)
    case None => None
    case Some(g) => ContainsChars(text, g); Some(Remove(CleanLabel(g)))
  }

  // ---------------------------------------------------------------------
  // parseCommand

  /** parseCommand: the first rule that fires on the lower-cased, trimmed
      message; "remove all" is never produced. */
  function ParseCommand(input: string): (r: Command)
    ensures !r.RemoveAll?
    ensures r.Undo? <==> Trim(Lower(input)) == "undo"
    ensures r.Create? <==> Trim(Lower(input)) != "undo" && Contains(Trim(Lower(input)), "create")
    ensures r.Add? || r.AddMultiple? ==> Contains(Trim(Lower(input)), "add")
    ensures r.Remove? ==> Contains(Trim(Lower(input)), "remove ") && !Contains(Trim(Lower(input)), "create")
    ensures r.AddMultiple? ==> |r.steps| >= 2 && forall k :: 0 <= k < |r.steps| ==> IsToken(r.steps[k])
    ensures r.Create? && r.names.Some? ==> |r.names.value| >= 2 && forall k :: 0 <= k < |r.names.value| ==> IsToken(r.names.value[k])
    ensures Lowercase(r)
  {
    var text := Trim(Lower(input));
    ParseTextLower(input);
    var create, between, multi := CreateRule(text), BetweenRule(text), MultiAddRule(text);
    var add, remove := AddRule(text), RemoveRule(text);
    AddWord(text);
    FirstRule(text, create, between, multi, add, remove)
  }

  /** The rule chain of parseCommand on the text `text`, given what each
      rule after the undo test yields. */
  function FirstRule(text: string, create: Option<Command>, between: Option<Command>,
                     multi: Option<Command>, add: Option<Command>, remove: Option<Command>): (r: Command)
    requires create.Some? <==> Contains(text, "create")
    requires create.Some? ==> create.value.Create?
    requires between.Some? ==> between.value.Add? && Contains(text, "add")
    requires multi.Some? ==> multi.value.AddMultiple? && Contains(text, "add")
    requires add.Some? ==> add.value.Add? && Contains(text, "add")
    requires remove.Some? ==> remove.value.Remove? && Contains(text, "remove ")
    requires multi.Some? ==> |multi.value.steps| >= 2 && forall k :: 0 <= k < |multi.value.steps| ==> IsToken(multi.value.steps[k])
    requires create.Some? && create.value.names.Some? ==>
               |create.value.names.value| >= 2 && forall k :: 0 <= k < |create.value.names.value| ==> IsToken(create.value.names.value[k])
    requires create.Some? ==> Lowercase(create.value)
    requires between.Some? ==> Lowercase(between.value)
    requires multi.Some? ==> Lowercase(multi.value)
    requires add.Some? ==> Lowercase(add.value)
    requires remove.Some? ==> Lowercase(remove.value)
    ensures !r.RemoveAll?
    ensures r.Undo? <==> text == "undo"
    ensures r.Create? <==> text != "undo" && Contains(text, "create")
    ensures r.Add? || r.AddMultiple? ==> Contains(text, "add")
    ensures r.Remove? ==> Contains(text, "remove ") && !Contains(text, "create")
    ensures r.AddMultiple? ==> |r.steps| >= 2 && forall k :: 0 <= k < |r.steps| ==> IsToken(r.steps[k])
    ensures r.Create? && r.names.Some? ==> |r.names.value| >= 2 && forall k :: 0 <= k < |r.names.value| ==> IsToken(r.names.value[k])
    ensures Lowercase(r)
  {
    if text == "undo" then Undo
    else if create.Some? then create.value
    else if between.Some? then between.value
    else if multi.Some? then multi.value
    else if add.Some? then add.value
    else if remove.Some? then remove.value
    else Unknown
  }

  lemma AddWord(text: string)
    ensures Contains(text, "add ") ==> Contains(text, "add")
  {
    if Contains(text, "add ") {
      var a := "add ";
      assert a[..3] == "add";
      FoundAt(a, "add", 0);
      ContainsTrans(text, a, "add");
    }
  }

  lemma ParseTextLower(input: string)
    ensures NoUpper(Trim(Lower(input)))
  {
    NoUpperInfix(Trim(Lower(input)), Lower(input));
  }

  // ---------------------------------------------------------------------
  // What parseCommand makes of the canonical phrasings

  /** A lower-case word of `\w` characters. */
  predicate PlainWord(w: string) {
    w != "" && forall c | c in w :: IsWordChar(c) && !IsUpper(c)
  }

  lemma PlainWordFacts(w: string)
    requires PlainWord(w)
    ensures NoSpace(w) && NoUpper(w) && NoLineTerminator(w)
    ensures ',' !in w && '&' !in w && ' ' !in w
    ensures w[|w| - 1] != '.' && w[|w| - 1] != ','
  {
    assert w[|w| - 1] in w;
  }

  /** Words joined by spaces that are already lower case are the text
      parseCommand works on. */
  lemma SentenceText(ws: seq<string>)
    requires |ws| >= 1 && forall k :: 0 <= k < |ws| ==> PlainWord(ws[k])
    ensures Trim(Lower(Join(ws, " "))) == Join(ws, " ")
  {
    PlainWords(ws);
    SentenceChars(ws);
    SentenceEnds(ws);
    OwnText(Join(ws, " "));
  }

  lemma PlainWords(ws: seq<string>)
    requires forall k :: 0 <= k < |ws| ==> PlainWord(ws[k])
    ensures Words(ws)
  {
    forall k | 0 <= k < |ws| ensures ws[k] != "" && NoSpace(ws[k]) { PlainWordFacts(ws[k]); }
  }

  /** A lower-case trimmed text is its own lower-cased trim. */
  lemma OwnText(s: string)
    requires NoUpper(s) && Trimmed(s)
    ensures Trim(Lower(s)) == s
  {
    LowerOfLower(s);
    TrimTrimmed(s);
  }

  predicate Plain(c: char) {
    c == ' ' || (IsWordChar(c) && !IsUpper(c))
  }

  lemma {:induction false} SentenceChars(ws: seq<string>)
    requires |ws| >= 1 && forall k :: 0 <= k < |ws| ==> PlainWord(ws[k])
    ensures NoUpper(Join(ws, " ")) && NoLineTerminator(Join(ws, " "))
    ensures ',' !in Join(ws, " ") && '&' !in Join(ws, " ")
  {
    var s := Join(ws, " ");
    SentencePlain(ws);
    forall c | c in s ensures !IsUpper(c) && !IsLineTerminator(c) && c != ',' && c != '&' {
      assert Plain(c);
    }
  }

  lemma {:induction false} SentencePlain(ws: seq<string>)
    requires |ws| >= 1 && forall k :: 0 <= k < |ws| ==> PlainWord(ws[k])
    ensures forall c | c in Join(ws, " ") :: Plain(c)
  {
    if |ws| > 1 {
      SentencePlain(ws[1..]);
      JoinCons(ws, " ");
    }
  }

  lemma {:induction false} SentenceEnds(ws: seq<string>)
    requires |ws| >= 1 && Words(ws)
    ensures Join(ws, " ") != "" && Trimmed(Join(ws, " "))
  {
    var w := ws[0];
    assert w[0] in w && w[|w| - 1] in w;
    if |ws| > 1 {
      SentenceEnds(ws[1..]);
      JoinCons(ws, " ");
    }
  }

  lemma Sentence4(a: string, b: string, c: string, d: string)
    ensures Join([a, b, c, d], " ") == a + " " + b + " " + c + " " + d
  {
    var ws := [a, b, c, d];
    assert ws[1..] == [b, c, d] && ws[1..][1..] == [c, d] && ws[1..][1..][1..] == [d];
    JoinCons(ws, " ");
    JoinCons(ws[1..], " ");
    JoinCons(ws[1..][1..], " ");
  }

  lemma Sentence2(a: string, b: string)
    ensures Join([a, b], " ") == a + " " + b
  {
    assert [a, b][1..] == [b];
    JoinCons([a, b], " ");
  }

  /** The first " after " of `x + " after " + y` past its first character is the one after `x`. */
  lemma FirstAfter(x: string, y: string)
    requires x != "" && NoSpace(x) && y != ""
    ensures IndexFrom(x + " after " + y, " after ", 1) == Some(|x|)
  {
    var rest := x + " after " + y;
    assert rest[|x|..|x| + 7] == " after ";
    assert OccursAt(rest, " after ", |x|);
    forall j | 1 <= j < |x| ensures !OccursAt(rest, " after ", j) {
      assert rest[j] == x[j] && x[j] in x;
    }
    var r := IndexFrom(rest, " after ", 1);
    assert r.Some?;
    assert r.value == |x|;
  }

  /** The add rule on "add X after Y" with one-word labels. */
  lemma AddAfterMatch(x: string, y: string)
    requires PlainWord(x) && PlainWord(y)
    ensures AddRule("add " + x + " after " + y) == Some(Add(x, Some(y)))
  {
    var text := "add " + x + " after " + y;
    PlainWordFacts(x);
    PlainWordFacts(y);
    AddAfterSentence(x, y);
    SentenceChars(["add", x, "after", y]);
    AddAtAfter(text, x, y);
    assert AddSearch(text, 0) == Some((x, Some(y)));
  }

  lemma AddAtAfter(text: string, x: string, y: string)
    requires text == "add " + x + " after " + y
    requires x != "" && NoSpace(x) && y != "" && NoLineTerminator(text)
    ensures AddAt(text, 0) == Some((x, Some(y)))
  {
    var rest := text[4..];
    assert rest == x + " after " + y;
    FirstAfter(x, y);
    assert rest[..|x|] == x && rest[|x| + 7..] == y;
    assert text[..4] == "add ";
    SliceChars(text, 4, |text|);
    assert text[4..|text|] == rest;
    assert NoLineTerminator(rest);
  }

  /** When no earlier rule fires, parseCommand is what the add rule yields. */
  lemma ParseByAddRule(input: string, text: string)
    requires text == Trim(Lower(input)) && text != "undo" && !Contains(text, "create")
    requires BetweenRule(text).None? && MultiAddRule(text).None? && AddRule(text).Some?
    ensures ParseCommand(input) == AddRule(text).value
  {
  }

  /** The between and multi-add rules need their separators. */
  lemma NoListRules(text: string)
    requires !Contains(text, " and ") && !Contains(text, ",") && !Contains(text, "&")
    ensures BetweenRule(text).None? && MultiAddRule(text).None?
  {
  }

  /** "add X after Y" with one-word labels is the add command of X after Y. */
  lemma ParseAddAfter(x: string, y: string)
    requires PlainWord(x) && PlainWord(y)
    requires !Contains(x, "create") && !Contains(y, "create")
    ensures ParseCommand("add " + x + " after " + y) == Add(x, Some(y))
  {
    var text := "add " + x + " after " + y;
    AddAfterText(x, y);
    AddAfterNoCreate(x, y);
    AddAfterLists(x, y);
    AddAfterMatch(x, y);
    assert text != "undo" by { assert |text| > 4; }
    ParseByAddRule(text, text);
  }

  /** The text "add X after Y" is its own lower-cased trim. */
  lemma AddAfterText(x: string, y: string)
    requires PlainWord(x) && PlainWord(y)
    ensures var text := "add " + x + " after " + y; Trim(Lower(text)) == text
  {
    AddAfterSentence(x, y);
    SentenceText(["add", x, "after", y]);
  }

  /** The text "add X after Y" holds no "create" when neither label does. */
  lemma AddAfterNoCreate(x: string, y: string)
    requires !Contains(x, "create") && !Contains(y, "create")
    ensures !Contains("add " + x + " after " + y, "create")
  {
    AddAfterSentence(x, y);
    SentenceLacks(["add", x, "after", y], "create");
  }

  /** Neither list rule fires on "add X after Y". */
  lemma AddAfterLists(x: string, y: string)
    requires PlainWord(x) && PlainWord(y)
    ensures var text := "add " + x + " after " + y; BetweenRule(text).None? && MultiAddRule(text).None?
  {
    if x == "and" {
      AndAfterLists(x, y);
    } else {
      AddAfterNoAnd(x, y);
      AddAfterNoMarks(x, y);
      NoListRules("add " + x + " after " + y);
    }
  }

  /** The text "add X after Y" holds no " and " unless X is "and". */
  lemma AddAfterNoAnd(x: string, y: string)
    requires PlainWord(x) && PlainWord(y) && x != "and"
    ensures !Contains("add " + x + " after " + y, " and ")
  {
    var ws := ["add", x, "after", y];
    AddAfterSentence(x, y);
    PlainWords(ws);
    forall k | 0 < k < |ws| - 1 ensures ws[k] != "and" {
      if k == 2 { assert ws[k][1] != "and"[1]; }
    }
    JoinLacksSpaced(ws, "and");
    assert " " + "and" + " " == " and ";
  }

  /** The text "add X after Y" holds no comma and no ampersand. */
  lemma AddAfterNoMarks(x: string, y: string)
    requires PlainWord(x) && PlainWord(y)
    ensures !Contains("add " + x + " after " + y, ",") && !Contains("add " + x + " after " + y, "&")
  {
    var text := "add " + x + " after " + y;
    AddAfterSentence(x, y);
    SentenceChars(["add", x, "after", y]);
    NotContainsChar(text, ",", ',');
    NotContainsChar(text, "&", '&');
  }

  lemma AddAfterSentence(x: string, y: string)
    ensures Join(["add", x, "after", y], " ") == "add " + x + " after " + y
  {
    Sentence4("add", x, "after", y);
    assert "add" + " " + x + " " + "after" + " " + y == "add " + x + " after " + y;
  }

  /** A word none of the words holds is not in their sentence. */
  lemma SentenceLacks(ws: seq<string>, p: string)
    requires |ws| >= 1 && p != "" && ' ' !in p
    requires forall k :: 0 <= k < |ws| ==> |ws[k]| < |p| || !Contains(ws[k], p)
    ensures !Contains(Join(ws, " "), p)
  {
    forall k | 0 <= k < |ws| ensures !Contains(ws[k], p) {
      if |ws[k]| < |p| { ShortLacks(ws[k], p); }
    }
    JoinLacks(ws, p);
  }

  /** " after " needs a space. */
  lemma NoAfterIn(x: string)
    requires NoSpace(x)
    ensures IndexFrom(x, " after ", 1).None?
  {
    forall j: nat ensures !OccursAt(x, " after ", j) {
      if j + 7 <= |x| { assert x[j] in x; }
    }
  }

  lemma AddSentence(x: string)
    ensures Join(["add", x], " ") == "add " + x
  {
    Sentence2("add", x);
  }

  /** The add rule on "add X" with a one-word label. */
  lemma AddPlainMatch(x: string)
    requires PlainWord(x)
    ensures AddRule("add " + x) == Some(Add(x, None))
  {
    var text := "add " + x;
    PlainWordFacts(x);
    AddSentence(x);
    SentenceChars(["add", x]);
    assert text[4..] == x && text[..4] == "add ";
    NoAfterIn(x);
    assert AddAt(text, 0) == Some((x, None));
    assert AddSearch(text, 0) == Some((x, None));
  }

  /** "add X" with a one-word label is the add command of X with no anchor. */
  lemma ParseAddPlain(x: string)
    requires PlainWord(x) && !Contains(x, "create")
    ensures ParseCommand("add " + x) == Add(x, None)
  {
    var text := "add " + x;
    AddPlainText(x);
    AddPlainNoCreate(x);
    AddPlainNoAnd(x);
    AddPlainNoMarks(x);
    NoListRules(text);
    AddPlainMatch(x);
    assert text != "undo" by { assert text[3] == ' '; }
    ParseByAddRule(text, text);
  }

  lemma AddPlainText(x: string)
    requires PlainWord(x)
    ensures Trim(Lower("add " + x)) == "add " + x
  {
    AddSentence(x);
    SentenceText(["add", x]);
  }

  lemma AddPlainNoCreate(x: string)
    requires !Contains(x, "create")
    ensures !Contains("add " + x, "create")
  {
    AddSentence(x);
    SentenceLacks(["add", x], "create");
  }

  lemma AddPlainNoAnd(x: string)
    requires PlainWord(x)
    ensures !Contains("add " + x, " and ")
  {
    AddSentence(x);
    PlainWords(["add", x]);
    JoinLacksSpaced(["add", x], "and");
    assert " " + "and" + " " == " and ";
  }

  lemma AddPlainNoMarks(x: string)
    requires PlainWord(x)
    ensures !Contains("add " + x, ",") && !Contains("add " + x, "&")
  {
    AddSentence(x);
    SentenceChars(["add", x]);
    NotContainsChar("add " + x, ",", ',');
    NotContainsChar("add " + x, "&", '&');
  }

  /** When no earlier rule fires, parseCommand is what the remove rule yields. */
  lemma ParseByRemoveRule(input: string, text: string)
    requires text == Trim(Lower(input)) && text != "undo" && !Contains(text, "create")
    requires !Contains(text, "add ") && MultiAddSearch(text, 0).None?
    requires RemoveRule(text).Some?
    ensures ParseCommand(input) == RemoveRule(text).value
  {
  }

  /** A multi-add match needs "add" followed by white space. */
  lemma {:induction false} MultiAddSpace(s: string, p: nat)
    requires p <= |s| && MultiAddSearch(s, p).Some?
    decreases |s| - p
    ensures exists i :: p <= i && i + 3 < |s| && OccursAt(s, "add", i) && IsSpace(s[i + 3])
  {
    if MultiAddAt(s, p).None? {
      MultiAddSpace(s, p + 1);
    }
  }

  /** In "remove X" with a one-word target no "add" is followed by white space,
      so neither add rule can match there, whatever letters X holds. */
  lemma RemoveNoAdd(x: string)
    requires PlainWord(x)
    ensures !Contains("remove " + x, "add ") && MultiAddSearch("remove " + x, 0).None?
  {
    var text := "remove " + x;
    PlainWordFacts(x);
    assert text[3..6] == "ove";
    forall i | 0 <= i && i + 3 < |text| && IsSpace(text[i + 3]) ensures !OccursAt(text, "add", i) {
    }
    AddSpaceWitness(text);
    if MultiAddSearch(text, 0).Some? {
      MultiAddSpace(text, 0);
    }
  }

  /** "add " is "add" followed by white space. */
  lemma AddSpaceWitness(s: string)
    ensures Contains(s, "add ") ==> exists i :: 0 <= i && i + 3 < |s| && OccursAt(s, "add", i) && IsSpace(s[i + 3])
  {
    if Contains(s, "add ") {
      var i := ContainsWitness(s, "add ");
      assert s[i + 3] == s[i..i + 4][3] && s[i..i + 3] == s[i..i + 4][..3];
      assert OccursAt(s, "add", i) && IsSpace(s[i + 3]);
    }
  }

  lemma RemoveSentence(x: string)
    ensures Join(["remove", x], " ") == "remove " + x
  {
    Sentence2("remove", x);
  }

  /** The remove rule on "remove X" with a one-word target. */
  lemma RemoveMatch(x: string)
    requires PlainWord(x)
    ensures RemoveRule("remove " + x) == Some(Remove(x))
  {
    var text := "remove " + x;
    PlainWordFacts(x);
    RemoveSentence(x);
    SentenceChars(["remove", x]);
    assert text[7..] == x && text[..7] == "remove ";
    assert RemoveAt(text, 0) == Some(x);
    assert RemoveSearch(text, 0) == Some(x);
  }

  /** "remove X" with a one-word target is the remove command of X. */
  lemma ParseRemove(x: string)
    requires PlainWord(x) && !Contains(x, "create")
    ensures ParseCommand("remove " + x) == Remove(x)
  {
    var text := "remove " + x;
    RemoveText(x);
    RemoveNoWord(x, "create");
    RemoveNoAdd(x);
    RemoveMatch(x);
    assert text != "undo" by { assert |text| > 4; }
    ParseByRemoveRule(text, text);
  }

  lemma RemoveText(x: string)
    requires PlainWord(x)
    ensures Trim(Lower("remove " + x)) == "remove " + x
  {
    RemoveSentence(x);
    SentenceText(["remove", x]);
  }

  /** "create" is not in "remove X" when the target lacks it. */
  lemma RemoveNoWord(x: string, p: string)
    requires p == "create"
    requires !Contains(x, p)
    ensures !Contains("remove " + x, p)
  {
    RemoveSentence(x);
    NotContainsChar("remove", p, p[0]);
    SentenceLacks(["remove", x], p);
  }

  /** "remove all" removes the step labelled "all": no rule yields the
      remove-all command. */
  lemma ParseRemoveAll()
    ensures ParseCommand("remove all") == Remove("all")
  {
    var x := "all";
    RemoveAllWord();
    ParseRemove(x);
    RemoveAllText();
  }

  lemma RemoveAllWord()
    ensures PlainWord("all") && !Contains("all", "create")
  {
    ShortLacks("all", "create");
  }

  lemma RemoveAllText()
    ensures "remove " + "all" == "remove all"
  {
    var a, b := "remove " + "all", "remove all";
    assert |a| == |b|;
    forall i | 0 <= i < |a| ensures a[i] == b[i] {
      if i < 7 { assert a[i] == "remove "[i]; } else { assert a[i] == "all"[i - 7]; }
    }
  }

  /** Only the exact word undo is the undo command. */
  lemma ParseUndoIt()
    ensures ParseCommand("undo") == Undo
    ensures ParseCommand("undo it") != Undo
  {
    Sentence2("undo", "it");
    assert PlainWord("undo") && PlainWord("it");
    SentenceText(["undo", "it"]);
    SentenceText(["undo"]);
    assert "undo" + " " + "it" == "undo it";
  }

  /** The request of the worked example, "add testing after process". */
  lemma ParseAddTesting(x: string, y: string)
    requires x == "testing" && y == "process"
    ensures ParseCommand("add " + x + " after " + y) == Add("testing", Some("process"))
  {
    assert PlainWord(x) by {
      assert forall c | c in x :: c in {'t', 'e', 's', 'i', 'n', 'g'};
    }
    assert PlainWord(y) by {
      assert forall c | c in y :: c in {'p', 'r', 'o', 'c', 'e', 's'};
    }
    NotContainsChar(x, "create", 'a');
    NotContainsChar(y, "create", 'a');
    ParseAddAfter(x, y);
  }

  // ---------------------------------------------------------------------
  // "add X between Y and Z"

  lemma Sentence6(a: string, b: string, c: string, d: string, e: string, f: string)
    ensures Join([a, b, c, d, e, f], " ") == a + " " + b + " " + c + " " + d + " " + e + " " + f
  {
    var ws := [a, b, c, d, e, f];
    assert ws[1..] == [b, c, d, e, f] && ws[1..][1..] == [c, d, e, f];
    JoinCons(ws, " ");
    JoinCons(ws[1..], " ");
    Sentence4(c, d, e, f);
  }

  /** In `x + " between " + y + " and " + z` with one-word labels, the only
      spaces are the two around "between" and the two around "and". */
  lemma BetweenSpaces(x: string, y: string, z: string, j: nat)
    requires PlainWord(x) && PlainWord(y) && PlainWord(z)
    requires j < |x| + 14 + |y| + |z|
    ensures var l := x + " between " + y + " and " + z;
            var b, a := |x|, |x| + 9 + |y|;
            l[j] == ' ' <==> j == b || j == b + 8 || j == a || j == a + 4
  {
    var l := x + " between " + y + " and " + z;
    var b, a := |x|, |x| + 9 + |y|;
    PlainWordFacts(x);
    PlainWordFacts(y);
    PlainWordFacts(z);
    if j < b {
      assert l[j] == x[j] && x[j] in x;
    } else if j < b + 9 {
      assert l[j] == " between "[j - b];
    } else if j < a {
      assert l[j] == y[j - b - 9] && y[j - b - 9] in y;
    } else if j < a + 5 {
      assert l[j] == " and "[j - a];
    } else {
      assert l[j] == z[j - a - 5] && z[j - a - 5] in z;
    }
  }

  /** The greedy " and " after the " between " that follows `x` is the one
      before `z`: the only " and " that far along. */
  lemma BetweenAnd(x: string, y: string, z: string)
    requires PlainWord(x) && PlainWord(y) && PlainWord(z)
    ensures var l := x + " between " + y + " and " + z;
            forall j :: |x| + 10 <= j && OccursAt(l, " and ", j) ==> j == |x| + 9 + |y|
    ensures var l := x + " between " + y + " and " + z;
            AndAfter(l, |x|) == Some(|x| + 9 + |y|)
  {
    var l := x + " between " + y + " and " + z;
    var b, a := |x|, |x| + 9 + |y|;
    forall j | b + 10 <= j && OccursAt(l, " and ", j) ensures j == a {
      assert l[j] == l[j..j + 5][0] && l[j + 4] == l[j..j + 5][4];
      BetweenSpaces(x, y, z, j);
      BetweenSpaces(x, y, z, j + 4);
    }
    assert OccursAt(l, " and ", a) by { assert l[a..a + 5] == " and "; }
    var r := AndAfter(l, b);
    assert r.Some?;
    assert r.value == a;
  }

  /** The between rule's " between " and " and " in `x + " between " + y + " and " + z`. */
  lemma BetweenFound(x: string, y: string, z: string)
    requires PlainWord(x) && PlainWord(y) && PlainWord(z)
    ensures var l := x + " between " + y + " and " + z;
            BetweenBelow(l, |l|) == Some((|x|, |x| + 9 + |y|))
  {
    var l := x + " between " + y + " and " + z;
    var b, a := |x|, |x| + 9 + |y|;
    BetweenAnd(x, y, z);
    assert OccursAt(l, " between ", b) by { assert l[b..b + 9] == " between "; }
    forall c | b < c < |l| && OccursAt(l, " between ", c) ensures AndAfter(l, c).None? {
      assert l[c] == l[c..c + 9][0] && l[c + 1] == l[c..c + 9][1] && l[c + 8] == l[c..c + 9][8];
      BetweenSpaces(x, y, z, c);
      BetweenSpaces(x, y, z, c + 8);
      assert l[a + 1] == 'a';
      assert c == b + 8;
    }
    var r := BetweenBelow(l, |l|);
    assert r.Some?;
    assert r.value.0 == b;
  }

  lemma BetweenSentence(x: string, y: string, z: string)
    requires PlainWord(x) && PlainWord(y) && PlainWord(z)
    ensures var text := "add " + x + " between " + y + " and " + z;
            Join(["add", x, "between", y, "and", z], " ") == text &&
            forall k :: 0 <= k < 6 ==> PlainWord(["add", x, "between", y, "and", z][k])
  {
    Sentence6("add", x, "between", y, "and", z);
    assert PlainWord("add") && PlainWord("between") && PlainWord("and");
    assert "add" + " " + x + " " + "between" + " " + y + " " + "and" + " " + z
        == "add " + x + " between " + y + " and " + z;
  }

  /** The match of the between rule at the start of the one-line text "add " + l. */
  lemma BetweenAtLine(text: string, l: string, b: nat, a: nat, x: string, y: string)
    requires text == "add " + l && NoLineTerminator(text)
    requires BetweenBelow(l, |l|) == Some((b, a))
    requires b <= a <= |l| && l[..b] == x && b + 9 <= a && l[b + 9..a] == y
    ensures BetweenAt(text, 0) == Some((x, y))
  {
    LineEndAll(text, 4);
    assert text[4..|text|] == l;
    assert OccursAt(text, "add ", 0) by { assert text[..4] == "add "; }
  }

  /** With no line terminator in the text, the line runs to its end. */
  lemma LineEndAll(s: string, i: nat)
    requires i <= |s| && NoLineTerminator(s)
    ensures LineEnd(s, i) == |s|
  {
  }

  /** The groups of `x + " between " + y + " and " + z` at the between rule's split. */
  lemma BetweenGroups(x: string, y: string, z: string)
    ensures var l := x + " between " + y + " and " + z;
            l[..|x|] == x && l[|x| + 9..|x| + 9 + |y|] == y
  {
  }

  /** The match of the between rule at the start of "add X between Y and Z". */
  lemma BetweenAtText(text: string, x: string, y: string, z: string)
    requires text == "add " + x + " between " + y + " and " + z
    requires PlainWord(x) && PlainWord(y) && PlainWord(z) && NoLineTerminator(text)
    ensures BetweenAt(text, 0) == Some((x, y))
  {
    var l := x + " between " + y + " and " + z;
    assert text == "add " + l;
    BetweenFound(x, y, z);
    BetweenGroups(x, y, z);
    BetweenAtLine(text, l, |x|, |x| + 9 + |y|, x, y);
  }

  /** The between rule on "add X between Y and Z" with one-word labels keeps
      X and Y and drops Z. */
  lemma BetweenMatch(x: string, y: string, z: string)
    requires PlainWord(x) && PlainWord(y) && PlainWord(z)
    ensures BetweenRule("add " + x + " between " + y + " and " + z) == Some(Add(x, Some(y)))
  {
    var text := "add " + x + " between " + y + " and " + z;
    BetweenSentence(x, y, z);
    SentenceChars(["add", x, "between", y, "and", z]);
    BetweenAtText(text, x, y, z);
    PlainWordFacts(x);
    PlainWordFacts(y);
    assert x[0] in x && x[|x| - 1] in x && y[0] in y && y[|y| - 1] in y;
    TrimTrimmed(x);
    TrimTrimmed(y);
  }

  /** The text "add X between Y and Z" is its own lower-cased trim. */
  lemma BetweenText(x: string, y: string, z: string)
    requires PlainWord(x) && PlainWord(y) && PlainWord(z)
    ensures var text := "add " + x + " between " + y + " and " + z;
            Trim(Lower(text)) == text && text != "undo"
  {
    var ws := ["add", x, "between", y, "and", z];
    BetweenSentence(x, y, z);
    SentenceText(ws);
    assert |Join(ws, " ")| > 4;
  }

  /** The text "add X between Y and Z" holds no "create" when no label does. */
  lemma BetweenNoCreate(x: string, y: string, z: string)
    requires PlainWord(x) && PlainWord(y) && PlainWord(z)
    requires !Contains(x, "create") && !Contains(y, "create") && !Contains(z, "create")
    ensures !Contains("add " + x + " between " + y + " and " + z, "create")
  {
    var ws := ["add", x, "between", y, "and", z];
    BetweenSentence(x, y, z);
    NotContainsChar("between", "create", 'c');
    SentenceLacks(ws, "create");
  }

  /** When the undo and create rules do not fire, parseCommand is what the
      between rule yields. */
  lemma ParseByBetweenRule(input: string, text: string)
    requires text == Trim(Lower(input)) && text != "undo" && !Contains(text, "create")
    requires BetweenRule(text).Some?
    ensures ParseCommand(input) == BetweenRule(text).value
  {
  }

  /** "add X between Y and Z" with one-word labels is the add command of X
      after Y; Z plays no part. */
  lemma ParseAddBetween(x: string, y: string, z: string)
    requires PlainWord(x) && PlainWord(y) && PlainWord(z)
    requires !Contains(x, "create") && !Contains(y, "create") && !Contains(z, "create")
    ensures ParseCommand("add " + x + " between " + y + " and " + z) == Add(x, Some(y))
  {
    var text := "add " + x + " between " + y + " and " + z;
    BetweenText(x, y, z);
    BetweenNoCreate(x, y, z);
    BetweenMatch(x, y, z);
    ParseByBetweenRule(text, text);
  }

  // ---------------------------------------------------------------------
  // Lists of one-word labels

  /** Without an "&", replacing "and" and "&" is replacing "and". */
  lemma {:induction false} ReplaceAmpFree(s: string, prev: Option<char>)
    requires forall i :: 0 <= i < |s| ==> s[i] != '&'
    decreases |s|
    ensures ReplaceAndAmp(s, prev) == ReplaceAnd(s, prev)
  {
    if |s| > 0 {
      if AndWordAt(s, prev) {
        ReplaceAmpFree(s[3..], Some('d'));
      } else {
        ReplaceAmpFree(s[1..], Some(s[0]));
      }
    }
  }

  /** After a word character, the rest of a word is not the word "and". */
  lemma {:induction false} ReplaceAndInWord(w: string, rest: string, c: char)
    requires forall i :: 0 <= i < |w| ==> IsWordChar(w[i])
    requires IsWordChar(c)
    decreases |w|
    ensures ReplaceAnd(w + rest, Some(c)) == w + ReplaceAnd(rest, Some(if w == "" then c else w[|w| - 1]))
  {
    if w == "" {
      assert w + rest == rest;
    } else {
      var s := w + rest;
      assert s[0] == w[0] && s[1..] == w[1..] + rest;
      ReplaceAndInWord(w[1..], rest, w[0]);
      assert [w[0]] + w[1..] == w;
    }
  }

  /** A one-word label other than "and", ended by a character that is not a
      word character, passes through the replacement of "and" unchanged. */
  lemma ReplaceAndWord(w: string, rest: string, prev: Option<char>)
    requires PlainWord(w) && w != "and" && (rest == "" || !IsWordChar(rest[0]))
    ensures ReplaceAnd(w + rest, prev) == w + ReplaceAnd(rest, Some(w[|w| - 1]))
  {
    var s := w + rest;
    NotAndWord(w, rest, prev);
    assert s[0] == w[0] && s[1..] == w[1..] + rest;
    WordChars(w);
    ReplaceAndInWord(w[1..], rest, w[0]);
    assert [w[0]] + w[1..] == w;
  }

  lemma WordChars(w: string)
    requires PlainWord(w)
    ensures forall i :: 0 <= i < |w| ==> IsWordChar(w[i])
  {
    forall i | 0 <= i < |w| ensures IsWordChar(w[i]) { assert w[i] in w; }
  }

  /** No word "and" starts at a one-word label other than "and". */
  lemma NotAndWord(w: string, rest: string, prev: Option<char>)
    requires PlainWord(w) && w != "and" && (rest == "" || !IsWordChar(rest[0]))
    ensures !AndWordAt(w + rest, prev)
  {
    var s := w + rest;
    if |w| >= 4 {
      assert s[3] == w[3] && w[3] in w;
    } else if |w| == 3 {
      assert s[..3] == w;
    } else if |s| >= 3 {
      assert s[|w|] == rest[0];
      assert IsWordChar("and"[|w|]);
    }
  }

  /** The word "and" between spaces becomes a comma. */
  lemma AndSeparator(t: string, prev: Option<char>)
    ensures ReplaceAnd(" and " + t, prev) == " , " + ReplaceAnd(t, Some(' '))
  {
    var s := " and " + t;
    var u := "and " + t;
    var v := " " + t;
    assert s[0] == ' ' && s[1..] == u;
    assert u[..3] == "and" && u[3] == ' ' && u[3..] == v;
    assert v[0] == ' ' && v[1..] == t;
    assert ReplaceAnd(v, Some('d')) == " " + ReplaceAnd(t, Some(' '));
    assert ReplaceAnd(u, Some(' ')) == "," + ReplaceAnd(v, Some('d'));
    assert ReplaceAnd(s, prev) == " " + ReplaceAnd(u, Some(' '));
  }

  /** A comma and a space pass through unchanged. */
  lemma CommaSeparator(t: string, prev: Option<char>)
    ensures ReplaceAnd(", " + t, prev) == ", " + ReplaceAnd(t, Some(' '))
  {
    var s := ", " + t;
    var v := " " + t;
    assert s[0] == ',' && s[1..] == v;
    assert v[0] == ' ' && v[1..] == t;
    assert ReplaceAnd(v, Some(',')) == " " + ReplaceAnd(t, Some(' '));
    assert ReplaceAnd(s, prev) == "," + ReplaceAnd(v, Some(','));
  }

  /** One-word labels joined by " and ": every "and" becomes a comma. */
  lemma {:induction false} ReplaceAndJoin(ws: seq<string>, prev: Option<char>)
    requires |ws| >= 1 && forall k :: 0 <= k < |ws| ==> PlainWord(ws[k]) && ws[k] != "and"
    decreases |ws|
    ensures ReplaceAnd(Join(ws, " and "), prev) == Join(ws, " , ")
  {
    var w := ws[0];
    if |ws| == 1 {
      ReplaceAndWord(w, "", prev);
      assert w + "" == w;
    } else {
      var j := Join(ws[1..], " and ");
      assert Join(ws, " and ") == w + (" and " + j);
      ReplaceAndWord(w, " and " + j, prev);
      AndSeparator(j, Some(w[|w| - 1]));
      ReplaceAndJoin(ws[1..], Some(' '));
      assert Join(ws, " , ") == w + (" , " + Join(ws[1..], " , "));
    }
  }

  /** Trimming a word with at most one space on either side gives the word. */
  lemma TrimPadded(s: string, pre: string, w: string, post: string)
    requires pre == "" || pre == " "
    requires post == "" || post == " "
    requires w != "" && NoSpace(w) && s == pre + w + post
    ensures Trim(s) == w
  {
    assert w[0] in w && w[|w| - 1] in w;
    TrimStartPadded(s, pre, w + post);
    TrimEndPadded(w + post, w, post);
  }

  lemma TrimStartPadded(s: string, pre: string, t: string)
    requires (pre == "" || pre == " ") && s == pre + t && t != "" && !IsSpace(t[0])
    ensures TrimStart(s) == t
  {
    if pre == " " {
      assert s[1..] == t;
    }
  }

  lemma TrimEndPadded(t: string, w: string, post: string)
    requires (post == "" || post == " ") && t == w + post && w != "" && !IsSpace(w[|w| - 1])
    ensures TrimEnd(t) == w
  {
    if post == " " {
      assert t[..|t| - 1] == w;
    }
  }

  /** Splitting at the first separator. */
  lemma SplitFirst(a: string, b: string, c: char)
    requires c !in a
    ensures Split(a + [c] + b, c) == [a] + Split(b, c)
  {
    var s := a + [c] + b;
    assert s[|a|] == c;
    assert s[..|a|] == a;
    assert FirstIndex(s, c) == |a|;
    assert s[|a| + 1..] == b;
  }

  lemma WordsOfCons(p: string, ps: seq<string>)
    ensures WordsOf([p] + ps) == SplitWs(Trim(p)) + WordsOf(ps)
  {
    assert ([p] + ps)[1..] == ps;
  }

  /** The pieces of one-word labels joined by " , ", split on commas,
      trimmed and split on white space, are the labels. */
  lemma {:induction false} WordsOfSpaced(ws: seq<string>, pre: string)
    requires pre == "" || pre == " "
    requires |ws| >= 1 && forall k :: 0 <= k < |ws| ==> PlainWord(ws[k])
    decreases |ws|
    ensures WordsOf(Split(pre + Join(ws, " , "), ',')) == ws
  {
    var w := ws[0];
    PlainWordFacts(w);
    if |ws| == 1 {
      assert Join(ws, " , ") == w;
      WordsOfPadded(pre + w, pre, w);
    } else {
      WordsOfSpaced(ws[1..], " ");
      WordsOfSpacedStep(ws, pre);
    }
  }

  lemma WordsOfSpacedStep(ws: seq<string>, pre: string)
    requires pre == "" || pre == " "
    requires |ws| >= 2 && IsToken(ws[0])
    requires WordsOf(Split(" " + Join(ws[1..], " , "), ',')) == ws[1..]
    ensures WordsOf(Split(pre + Join(ws, " , "), ',')) == ws
  {
    var w := ws[0];
    var a := pre + w + " ";
    var b := " " + Join(ws[1..], " , ");
    JoinSpacedCons(ws, pre, a, b);
    TrimPadded(a, pre, w, " ");
    WordsOfStep(pre + Join(ws, " , "), a, b, w, ws[1..]);
    assert [w] + ws[1..] == ws;
  }

  lemma JoinSpacedCons(ws: seq<string>, pre: string, a: string, b: string)
    requires |ws| >= 2 && a == pre + ws[0] + " " && b == " " + Join(ws[1..], " , ")
    ensures pre + Join(ws, " , ") == a + [','] + b
  {
  }

  lemma WordsOfPadded(s: string, pre: string, w: string)
    requires pre == "" || pre == " "
    requires IsToken(w) && s == pre + w
    ensures WordsOf(Split(s, ',')) == [w]
  {
    assert s == pre + w + "";
    TrimPadded(s, pre, w, "");
    WordsOfSingle(s, w);
  }

  lemma WordsOfSingle(s: string, w: string)
    requires ',' !in s && Trim(s) == w && NoSpace(w)
    ensures WordsOf(Split(s, ',')) == [w]
  {
    WordsOfCons(s, []);
    assert [s] + [] == [s];
  }

  lemma WordsOfStep(s: string, a: string, b: string, w: string, rest: seq<string>)
    requires s == a + [','] + b
    requires ',' !in a && Trim(a) == w && NoSpace(w) && WordsOf(Split(b, ',')) == rest
    ensures WordsOf(Split(s, ',')) == [w] + rest
  {
    SplitFirst(a, b, ',');
    WordsOfCons(a, Split(b, ','));
  }

  /** Nonempty strings all pass `.filter(Boolean)`. */
  lemma {:induction false} NonEmptyAll(ws: seq<string>)
    requires forall k :: 0 <= k < |ws| ==> ws[k] != ""
    ensures NonEmpty(ws) == ws
  {
    if |ws| > 0 {
      NonEmptyAll(ws[1..]);
      assert [ws[0]] + ws[1..] == ws;
    }
  }

  /** The labels of one-word labels joined by " , " are those labels. */
  lemma TokensSpaced(ws: seq<string>)
    requires |ws| >= 1 && forall k :: 0 <= k < |ws| ==> PlainWord(ws[k])
    ensures Tokens(Join(ws, " , ")) == ws
  {
    WordsOfSpaced(ws, "");
    assert "" + Join(ws, " , ") == Join(ws, " , ");
    NonEmptyAll(ws);
  }

  /** Without an "&", `.replace(/&/g, ",")` changes nothing. */
  lemma ReplaceAmpNone(s: string)
    requires '&' !in s
    ensures ReplaceAmp(s) == s
  {
    forall k | 0 <= k < |s| ensures ReplaceAmp(s)[k] == s[k] { assert s[k] in s; }
  }

  /** A prefix that cannot reach past the word is a prefix of the word. */
  lemma StartsWithWord(w: string, rest: string, p: string)
    requires rest == "" || rest[0] !in p
    ensures StartsWith(w + rest, p) ==> StartsWith(w, p)
  {
    var s := w + rest;
    if |p| <= |w| {
      assert |p| <= |s| ==> s[..|p|] == w[..|p|];
    } else if |w| < |s| && |w| < |p| <= |s| {
      assert s[|w|] == rest[0];
      assert p[|w|] in p;
      assert s[..|p|][|w|] == s[|w|];
    }
  }

  // ---------------------------------------------------------------------
  // "create with A and B and ..."

  /** The words of labels joined by " and ". */
  function AndWords(ws: seq<string>): (r: seq<string>)
    requires |ws| >= 1
    ensures |r| >= 1
  {
    if |ws| == 1 then ws else [ws[0], "and"] + AndWords(ws[1..])
  }

  lemma {:induction false} JoinAndWords(ws: seq<string>)
    requires |ws| >= 1 && forall k :: 0 <= k < |ws| ==> PlainWord(ws[k])
    ensures Join(ws, " and ") == Join(AndWords(ws), " ")
    ensures forall k :: 0 <= k < |AndWords(ws)| ==> PlainWord(AndWords(ws)[k])
  {
    if |ws| > 1 {
      JoinAndWords(ws[1..]);
      var a := AndWords(ws[1..]);
      var r := [ws[0], "and"] + a;
      assert r[1..] == ["and"] + a && (["and"] + a)[1..] == a;
      JoinCons(r, " ");
      JoinCons(["and"] + a, " ");
      assert ws[0] + " " + ("and" + " " + Join(a, " ")) == ws[0] + " and " + Join(a, " ");
      assert PlainWord("and");
      forall k | 0 <= k < |r| ensures PlainWord(r[k]) {
        if k >= 2 { assert r[k] == a[k - 2]; }
      }
    }
  }

  /** A create request that lists labels joined by " and " as a sentence. */
  lemma CreateSentence(ws: seq<string>)
    requires |ws| >= 1 && forall k :: 0 <= k < |ws| ==> PlainWord(ws[k])
    ensures var j := Join(ws, " and ");
            var words := ["create", "with"] + AndWords(ws);
            "create with " + j == Join(words, " ") &&
            forall k :: 0 <= k < |words| ==> PlainWord(words[k])
  {
    var a := AndWords(ws);
    JoinAndWords(ws);
    var words := ["create", "with"] + a;
    assert words[1..] == ["with"] + a && (["with"] + a)[1..] == a;
    JoinCons(words, " ");
    JoinCons(["with"] + a, " ");
    assert "create" + " " + ("with" + " " + Join(a, " ")) == "create with " + Join(a, " ");
    assert PlainWord("create") && PlainWord("with");
    forall k | 0 <= k < |words| ensures PlainWord(words[k]) {
      if k >= 2 { assert words[k] == a[k - 2]; }
    }
  }

  /** The text of a create request is its own lower-cased trim. */
  lemma CreateWithText(text: string, ws: seq<string>)
    requires |ws| >= 1 && forall k :: 0 <= k < |ws| ==> PlainWord(ws[k])
    requires text == "create with " + Join(ws, " and ")
    ensures Trim(Lower(text)) == text
  {
    var words := ["create", "with"] + AndWords(ws);
    CreateSentence(ws);
    SentenceText(words);
  }

  /** A create request mentions "create" and is not "undo". */
  lemma CreateWithWord(text: string, j: string)
    requires text == "create with " + j
    ensures text != "undo" && Contains(text, "create")
  {
    assert text[..6] == "create";
    FoundAt(text, "create", 0);
  }

  /** The first "with " of a create request follows "create ". */
  lemma WithAt(text: string, j: string)
    requires text == "create with " + j
    ensures IndexOf(text, "with ") == Some(7) && text[12..] == j
  {
    assert text[7..12] == "with ";
    assert OccursAt(text, "with ", 7);
    forall i | 0 <= i < 7 ensures !OccursAt(text, "with ", i) {
      assert text[i] == "create "[i];
      assert text[i..i + 5][0] == text[i];
    }
    var r := IndexOf(text, "with ");
    assert r.Some?;
    assert r.value == 7;
  }

  /** A label that `/^(steps?|labels?|points?)/` does not match. */
  predicate ListMarkerFree(w: string) {
    !StartsWith(w, "step") && !StartsWith(w, "label") && !StartsWith(w, "point")
  }

  /** Labels joined by " and " with a marker-free first label: the list the
      create rule reads is the text itself. */
  lemma CreateListJoin(ws: seq<string>)
    requires |ws| >= 1 && forall k :: 0 <= k < |ws| ==> PlainWord(ws[k])
    requires ListMarkerFree(ws[0])
    ensures CreateList(Join(ws, " and ")) == Join(ws, " and ")
  {
    var j := Join(ws, " and ");
    JoinTrimmed(ws);
    JoinMarkerFree(ws);
  }

  lemma JoinTrimmed(ws: seq<string>)
    requires |ws| >= 1 && forall k :: 0 <= k < |ws| ==> PlainWord(ws[k])
    ensures Trim(Join(ws, " and ")) == Join(ws, " and ")
  {
    JoinAndWords(ws);
    PlainWords(AndWords(ws));
    SentenceEnds(AndWords(ws));
    TrimTrimmed(Join(ws, " and "));
  }

  lemma JoinMarkerFree(ws: seq<string>)
    requires |ws| >= 1 && ListMarkerFree(ws[0])
    ensures StripListMarker(Join(ws, " and ")) == Join(ws, " and ")
  {
    var j := Join(ws, " and ");
    var rest := if |ws| == 1 then "" else " and " + Join(ws[1..], " and ");
    assert j == ws[0] + rest;
    assert ' ' !in "step" && ' ' !in "label" && ' ' !in "point";
    StartsWithWord(ws[0], rest, "step");
    StartsWithWord(ws[0], rest, "label");
    StartsWithWord(ws[0], rest, "point");
  }

  /** The labels the create rule reads from "with " + labels joined by " and ". */
  lemma CreateNamesJoin(text: string, ws: seq<string>)
    requires |ws| >= 2 && forall k :: 0 <= k < |ws| ==> PlainWord(ws[k]) && ws[k] != "and"
    requires ListMarkerFree(ws[0]) && text == "create with " + Join(ws, " and ")
    ensures CreateNames(text) == Some(ws)
  {
    var j := Join(ws, " and ");
    WithAt(text, j);
    CreateListJoin(ws);
    ReplaceAndJoin(ws, None);
    JoinAndWords(ws);
    SentenceChars(AndWords(ws));
    ReplaceAmpNone(Join(ws, " , "));
    TokensSpaced(ws);
  }

  /** When the undo test fails and the text mentions "create", parseCommand
      is what the create rule yields. */
  lemma ParseByCreateRule(input: string, text: string)
    requires text == Trim(Lower(input)) && text != "undo" && Contains(text, "create")
    ensures ParseCommand(input) == Create(CreateNames(text))
  {
  }

  /** "create with A and B ..." with one-word labels other than "and" creates
      a diagram of exactly those labels, in order. */
  lemma ParseCreateWith(ws: seq<string>)
    requires |ws| >= 2 && forall k :: 0 <= k < |ws| ==> PlainWord(ws[k]) && ws[k] != "and"
    requires ListMarkerFree(ws[0])
    ensures ParseCommand("create with " + Join(ws, " and ")) == Create(Some(ws))
  {
    var text := "create with " + Join(ws, " and ");
    CreateWithText(text, ws);
    CreateWithWord(text, Join(ws, " and "));
    CreateNamesJoin(text, ws);
    ParseByCreateRule(text, text);
  }

  /** "create with X and Y" with one-word labels creates a diagram of the
      two steps X and Y, in order. */
  lemma ParseCreateWithTwo(x: string, y: string)
    requires PlainWord(x) && PlainWord(y) && x != "and" && y != "and" && ListMarkerFree(x)
    ensures ParseCommand("create with " + x + " and " + y) == Create(Some([x, y]))
  {
    var text := "create with " + x + " and " + y;
    CreateTwoText(text, x, y);
    PlainPair(x, y);
    ParseCreateWith([x, y]);
  }

  lemma CreateTwoText(text: string, x: string, y: string)
    requires text == "create with " + x + " and " + y
    ensures text == "create with " + Join([x, y], " and ")
  {
    assert [x, y][1..] == [y];
    assert Join([x, y], " and ") == x + " and " + y;
  }

  // ---------------------------------------------------------------------
  // "add A, B and C"

  /** A label that the multi-add rule's `(?:steps?|stages?|nodes?)` does not match. */
  predicate KindFree(w: string) {
    !StartsWith(w, "step") && !StartsWith(w, "stage") && !StartsWith(w, "node")
  }

  /** The parts of "add X, Y and Z": the captured list, and its tail as labels joined by " and ". */
  lemma SeveralParts(text: string, x: string, y: string, z: string)
    requires text == "add " + x + ", " + y + " and " + z
    ensures text == "add " + (x + (", " + Join([y, z], " and ")))
    ensures text[..4] == "add " && text[4..] == x + (", " + Join([y, z], " and "))
  {
    assert [y, z][1..] == [z];
    assert Join([y, z], " and ") == y + " and " + z;
  }

  /** The tail "Y and Z" of the list, as a sentence. */
  lemma TailFacts(y: string, z: string)
    requires PlainWord(y) && PlainWord(z)
    ensures var j := Join([y, z], " and ");
            j != "" && Trimmed(j) && NoUpper(j) && NoLineTerminator(j) && ',' !in j && '&' !in j
  {
    JoinAndWords([y, z]);
    SentenceChars(AndWords([y, z]));
    PlainWords(AndWords([y, z]));
    SentenceEnds(AndWords([y, z]));
  }

  /** "add X, Y and Z" is its own lower-cased trim, on one line, without "&". */
  lemma SeveralText(text: string, x: string, j: string)
    requires text == "add " + (x + (", " + j)) && PlainWord(x)
    requires j != "" && Trimmed(j) && NoUpper(j) && NoLineTerminator(j) && '&' !in j
    ensures Trim(Lower(text)) == text && NoLineTerminator(text) && '&' !in text && text != "undo"
    ensures Trimmed(x + (", " + j))
  {
    PlainWordFacts(x);
    assert NoUpper("add ") && NoUpper(", ") && NoLineTerminator("add ") && NoLineTerminator(", ");
    assert text[|text| - 1] == j[|j| - 1];
    assert text[3] == ' ';
    OwnText(text);
    assert x[0] in x;
  }

  /** The words of "add X, Y and Z". */
  lemma SeveralSentence(text: string, x: string, y: string, z: string)
    requires text == "add " + x + ", " + y + " and " + z
    ensures text == Join(["add", x + ",", y, "and", z], " ")
  {
    var ws := ["add", x + ",", y, "and", z];
    assert ws[1..] == [x + ",", y, "and", z];
    JoinCons(ws, " ");
    Sentence4(x + ",", y, "and", z);
    assert "add" + " " + (x + "," + " " + y + " " + "and" + " " + z) == "add " + x + ", " + y + " and " + z;
  }

  /** "add X, Y and Z" holds no "create" when no label does. */
  lemma SeveralNoCreate(text: string, x: string, y: string, z: string)
    requires text == Join(["add", x + ",", y, "and", z], " ")
    requires !Contains(x, "create") && !Contains(y, "create") && !Contains(z, "create")
    ensures !Contains(text, "create")
  {
    NoStraddle(x, ",", "create");
    ShortLacks(",", "create");
    SentenceLacks(["add", x + ",", y, "and", z], "create");
  }

  /** "add X, Y and Z" holds no " between " unless Y is "between". */
  lemma SeveralNoBetween(text: string, x: string, y: string, z: string)
    requires text == Join(["add", x + ",", y, "and", z], " ")
    requires PlainWord(x) && PlainWord(y) && PlainWord(z) && y != "between"
    ensures !Contains(text, " between ")
  {
    var ws := ["add", x + ",", y, "and", z];
    PlainWordFacts(x);
    PlainWordFacts(y);
    PlainWordFacts(z);
    assert NoSpace(x + ",");
    assert ',' in x + "," && ',' !in "between";
    PlainWords(["add", y, "and", z]);
    assert Words(ws);
    JoinLacksSpaced(ws, "between");
    assert " " + "between" + " " == " between ";
  }

  /** `(.+)` at `q` takes the rest of a text with no line terminator. */
  lemma RestAll(s: string, q: nat)
    requires q < |s| && NoLineTerminator(s)
    ensures RestOfLine(s, q) == Some(s[q..])
  {
    LineEndAll(s, q);
    assert s[q] in s;
    assert s[q..LineEnd(s, q)] == s[q..];
  }

  /** With no kind word, count or space at `q`, the list group is the rest of the text. */
  lemma KindRest(s: string, q: nat)
    requires q < |s| && NoLineTerminator(s) && !IsSpace(s[q]) && KindLength(s, q) == 0
    ensures KindThenRest(s, q) == Some(s[q..])
  {
    assert SpaceRunEnd(s, q) == q;
    RestAll(s, q);
  }

  lemma CountRest(s: string, q: nat)
    requires q < |s| && NoLineTerminator(s) && !IsSpace(s[q]) && !IsDigit(s[q]) && KindLength(s, q) == 0
    ensures CountThenRest(s, q) == Some(s[q..])
  {
    assert DigitRunEnd(s, q) == q;
    KindRest(s, q);
  }

  /** After "add " the multi-add rule captures the rest of the line when no
      count, kind word or space comes first. */
  lemma SeveralRest(text: string)
    requires |text| > 4 && text[..4] == "add " && NoLineTerminator(text)
    requires !IsSpace(text[4]) && !IsDigit(text[4]) && KindLength(text, 4) == 0
    ensures MultiAddSearch(text, 0) == Some(text[4..])
  {
    assert OccursAt(text, "add", 0) by { assert text[..3] == text[..4][..3]; }
    assert IsSpace(text[3]) by { assert text[3] == text[..4][3]; }
    assert SpaceRunEnd(text, 4) == 4;
    assert SpaceRunEnd(text, 3) == 4;
    CountRest(text, 4);
    assert AddSpacesThen(text, 3, 4) == Some(text[4..]);
  }

  /** No kind word begins the list. */
  lemma SeveralKind(text: string, g: string, x: string, rest: string)
    requires |text| >= 4 && text[4..] == g && g == x + rest && KindFree(x) && |rest| > 0 && rest[0] == ','
    ensures KindLength(text, 4) == 0
  {
    assert ',' !in "step" && ',' !in "stage" && ',' !in "node";
    StartsWithWord(x, rest, "step");
    StartsWithWord(x, rest, "stage");
    StartsWithWord(x, rest, "node");
  }

  /** The list "X, ..." does not begin with the word "called". */
  lemma NotCalled(g: string, x: string, rest: string)
    requires g == x + rest && PlainWord(x) && |rest| > 0 && rest[0] == ','
    ensures StripWord(g, "called") == g
  {
    if |x| >= 7 {
      assert g[6] == x[6] && x[6] in x;
    } else if |x| == 6 {
      assert g[6] == ',';
    } else if |g| >= 6 {
      assert g[|x|] == ',';
      assert g[..6][|x|] == g[|x|];
    }
  }

  /** The labels the multi-add rule reads from "X, Y and Z". */
  lemma SeveralTokens(g: string, x: string, ws: seq<string>)
    requires g == x + (", " + Join(ws, " and ")) && '&' !in g
    requires |ws| >= 1 && forall k :: 0 <= k < |ws| ==> PlainWord(ws[k]) && ws[k] != "and"
    requires PlainWord(x) && x != "and"
    ensures Tokens(ReplaceAndAmp(g, None)) == [x] + ws
  {
    var c := Join(ws, " , ");
    SeveralReplace(g, x, Join(ws, " and "), ws);
    WordsOfSpaced(ws, " ");
    SeveralSplit(x + (", " + c), x, c, ws);
  }

  /** `.replace(/\band\b/g, ",")` on "X, A and B and ...". */
  lemma SeveralReplace(g: string, x: string, j: string, ws: seq<string>)
    requires g == x + (", " + j) && '&' !in g && j == Join(ws, " and ")
    requires |ws| >= 1 && forall k :: 0 <= k < |ws| ==> PlainWord(ws[k]) && ws[k] != "and"
    requires PlainWord(x) && x != "and"
    ensures ReplaceAndAmp(g, None) == x + (", " + Join(ws, " , "))
  {
    forall i | 0 <= i < |g| ensures g[i] != '&' { assert g[i] in g; }
    ReplaceAmpFree(g, None);
    SeveralReplaceAnd(g, x, j, ws);
  }

  lemma SeveralReplaceAnd(g: string, x: string, j: string, ws: seq<string>)
    requires g == x + (", " + j) && j == Join(ws, " and ")
    requires |ws| >= 1 && forall k :: 0 <= k < |ws| ==> PlainWord(ws[k]) && ws[k] != "and"
    requires PlainWord(x) && x != "and"
    ensures ReplaceAnd(g, None) == x + (", " + Join(ws, " , "))
  {
    ReplaceAndWord(x, ", " + j, None);
    CommaSeparator(j, Some(x[|x| - 1]));
    ReplaceAndJoin(ws, Some(' '));
  }

  lemma SeveralSplit(s: string, x: string, c: string, rest: seq<string>)
    requires s == x + (", " + c) && PlainWord(x) && WordsOf(Split(" " + c, ',')) == rest
    requires forall k :: 0 <= k < |rest| ==> rest[k] != ""
    ensures Tokens(s) == [x] + rest
  {
    var b := " " + c;
    CommaSpace(c);
    SeveralWords(s, x, b, rest);
    NonEmptyCons(x, rest);
    TokensOf(s, [x] + rest);
  }

  lemma NonEmptyCons(x: string, rest: seq<string>)
    requires PlainWord(x) && forall k :: 0 <= k < |rest| ==> rest[k] != ""
    ensures forall k :: 0 <= k < |[x] + rest| ==> ([x] + rest)[k] != ""
  {
    forall k | 0 <= k < |[x] + rest| ensures ([x] + rest)[k] != "" {
      if k > 0 { assert ([x] + rest)[k] == rest[k - 1]; }
    }
  }

  lemma CommaSpace(c: string)
    ensures ", " + c == "," + (" " + c)
  {
  }

  lemma TokensOf(s: string, ws: seq<string>)
    requires WordsOf(Split(s, ',')) == ws && forall k :: 0 <= k < |ws| ==> ws[k] != ""
    ensures Tokens(s) == ws
  {
    NonEmptyAll(ws);
  }

  lemma SeveralWords(s: string, x: string, b: string, rest: seq<string>)
    requires s == x + ("," + b) && PlainWord(x) && WordsOf(Split(b, ',')) == rest
    ensures WordsOf(Split(s, ',')) == [x] + rest
  {
    CommaCons(s, x, b);
    TrimWord(x);
    WordsOfStep(s, x, b, x, rest);
  }

  lemma CommaCons(s: string, x: string, b: string)
    requires s == x + ("," + b)
    ensures s == x + [','] + b
  {
  }

  /** A one-word label is its own trim and holds no comma. */
  lemma TrimWord(x: string)
    requires PlainWord(x)
    ensures Trim(x) == x && ',' !in x && NoSpace(x)
  {
    PlainWordFacts(x);
    TrimPadded(x, "", x, "");
  }

  /** The list group of "add X, ..." is "X, ...", kept whole by the "called" strip. */
  lemma SeveralGroup(text: string, g: string, x: string, rest: string)
    requires |text| > 4 && text[..4] == "add " && text[4..] == g && NoLineTerminator(text)
    requires g == x + rest && |rest| > 0 && rest[0] == ',' && Trimmed(g)
    requires PlainWord(x) && KindFree(x) && !IsDigit(x[0])
    ensures MultiAddSearch(text, 0) == Some(g)
    ensures StripWord(Trim(g), "called") == g && Contains(g, ",")
  {
    SeveralSearch(text, g, x, rest);
    SeveralRaw(g, x, rest);
  }

  lemma SeveralSearch(text: string, g: string, x: string, rest: string)
    requires |text| > 4 && text[..4] == "add " && text[4..] == g && NoLineTerminator(text)
    requires g == x + rest && |rest| > 0 && rest[0] == ','
    requires PlainWord(x) && KindFree(x) && !IsDigit(x[0])
    ensures MultiAddSearch(text, 0) == Some(g)
  {
    PlainWordFacts(x);
    assert x[0] in x && text[4] == x[0];
    SeveralKind(text, g, x, rest);
    SeveralRest(text);
  }

  lemma SeveralRaw(g: string, x: string, rest: string)
    requires g == x + rest && |rest| > 0 && rest[0] == ',' && Trimmed(g) && PlainWord(x)
    ensures StripWord(Trim(g), "called") == g && Contains(g, ",")
  {
    TrimTrimmed(g);
    NotCalled(g, x, rest);
    assert g[|x|] == ',';
    FoundAt(g, ",", |x|);
  }

  /** The multi-add rule fires with the labels of a group that holds a comma. */
  lemma MultiAddBy(text: string, g: string, steps: seq<string>)
    requires MultiAddSearch(text, 0) == Some(g) && StripWord(Trim(g), "called") == g && Contains(g, ",")
    requires Tokens(ReplaceAndAmp(g, None)) == steps && |steps| > 1
    ensures MultiAddRule(text) == Some(AddMultiple(steps))
  {
  }

  /** When no earlier rule fires, parseCommand is what the multi-add rule yields. */
  lemma ParseByMultiAddRule(input: string, text: string)
    requires text == Trim(Lower(input)) && text != "undo" && !Contains(text, "create")
    requires BetweenRule(text).None? && MultiAddRule(text).Some?
    ensures ParseCommand(input) == MultiAddRule(text).value
  {
  }

  /** "add X, Y and Z" with one-word labels adds the three steps X, Y and Z,
      in order. */
  lemma ParseAddSeveral(x: string, y: string, z: string)
    requires PlainWord(x) && PlainWord(y) && PlainWord(z)
    requires x != "and" && y != "and" && z != "and" && y != "between"
    requires KindFree(x) && !IsDigit(x[0])
    requires !Contains(x, "create") && !Contains(y, "create") && !Contains(z, "create")
    ensures ParseCommand("add " + x + ", " + y + " and " + z) == AddMultiple([x, y, z])
  {
    var text := "add " + x + ", " + y + " and " + z;
    SeveralEarlier(text, x, y, z);
    SeveralMulti(text, x, y, z);
    ParseByMultiAddRule(text, text);
  }

  /** No rule before the multi-add rule fires on "add X, Y and Z". */
  lemma SeveralEarlier(text: string, x: string, y: string, z: string)
    requires text == "add " + x + ", " + y + " and " + z
    requires PlainWord(x) && PlainWord(y) && PlainWord(z) && y != "between"
    requires !Contains(x, "create") && !Contains(y, "create") && !Contains(z, "create")
    ensures Trim(Lower(text)) == text && text != "undo" && !Contains(text, "create") && BetweenRule(text).None?
  {
    SeveralParts(text, x, y, z);
    TailFacts(y, z);
    SeveralText(text, x, Join([y, z], " and "));
    SeveralSentence(text, x, y, z);
    SeveralNoCreate(text, x, y, z);
    SeveralNoBetween(text, x, y, z);
  }

  /** The multi-add rule reads X, Y and Z from "add X, Y and Z". */
  lemma SeveralMulti(text: string, x: string, y: string, z: string)
    requires text == "add " + x + ", " + y + " and " + z
    requires PlainWord(x) && PlainWord(y) && PlainWord(z) && x != "and" && y != "and" && z != "and"
    requires KindFree(x) && !IsDigit(x[0])
    ensures MultiAddRule(text) == Some(AddMultiple([x, y, z]))
  {
    SeveralShape(text, x, y, z);
    SeveralMultiThree(text, x + (", " + Join([y, z], " and ")), x, y, z);
  }

  lemma SeveralMultiThree(text: string, g: string, x: string, y: string, z: string)
    requires |text| > 4 && text[..4] == "add " && text[4..] == g && NoLineTerminator(text) && Trimmed(g)
    requires g == x + (", " + Join([y, z], " and ")) && '&' !in Join([y, z], " and ")
    requires PlainWord(x) && PlainWord(y) && PlainWord(z) && x != "and" && y != "and" && z != "and"
    requires KindFree(x) && !IsDigit(x[0])
    ensures MultiAddRule(text) == Some(AddMultiple([x, y, z]))
  {
    PlainPair(y, z);
    assert [x, y, z] == [x] + [y, z];
    SeveralMultiFrom(text, g, x, Join([y, z], " and "), [y, z], [x, y, z]);
  }

  lemma SeveralShape(text: string, x: string, y: string, z: string)
    requires text == "add " + x + ", " + y + " and " + z && PlainWord(x) && PlainWord(y) && PlainWord(z)
    ensures var g := x + (", " + Join([y, z], " and "));
            |text| > 4 && text[..4] == "add " && text[4..] == g && NoLineTerminator(text) && Trimmed(g)
    ensures '&' !in Join([y, z], " and ")
  {
    SeveralParts(text, x, y, z);
    TailFacts(y, z);
    SeveralText(text, x, Join([y, z], " and "));
  }

  lemma PlainPair(y: string, z: string)
    requires PlainWord(y) && PlainWord(z) && y != "and" && z != "and"
    ensures forall k :: 0 <= k < |[y, z]| ==> PlainWord([y, z][k]) && [y, z][k] != "and"
  {
  }

  lemma SeveralMultiFrom(text: string, g: string, x: string, j: string, ws: seq<string>, steps: seq<string>)
    requires |text| > 4 && text[..4] == "add " && text[4..] == g && NoLineTerminator(text) && Trimmed(g)
    requires g == x + (", " + j) && j == Join(ws, " and ") && '&' !in j
    requires |ws| >= 1 && forall k :: 0 <= k < |ws| ==> PlainWord(ws[k]) && ws[k] != "and"
    requires PlainWord(x) && x != "and" && KindFree(x) && !IsDigit(x[0]) && steps == [x] + ws
    ensures MultiAddRule(text) == Some(AddMultiple(steps))
  {
    PlainWordFacts(x);
    assert '&' !in g;
    SeveralGroup(text, g, x, ", " + j);
    SeveralTokens(g, x, ws);
    MultiAddBy(text, g, steps);
  }

  /** "add and after Y": the label "and" leaves the list rules silent, since
      the list after "add" begins with "and" rather than holding " and ". */
  lemma AndAfterLists(x: string, y: string)
    requires x == "and" && PlainWord(y)
    ensures var text := "add " + x + " after " + y; BetweenRule(text).None? && MultiAddRule(text).None?
  {
    var text := "add " + x + " after " + y;
    var g := x + " after " + y;
    AddAfterSentence(x, y);
    AndAfterNoBetween(text, y);
    assert text == "add " + g;
    AndAfterSentence(g, x, y);
    assert g[0] == 'a';
    AndAfterRest(text, g, y);
    AndAfterTrim(g, y);
    AndAfterMarks(g, y);
  }

  lemma AndAfterNoBetween(text: string, y: string)
    requires PlainWord(y) && text == Join(["add", "and", "after", y], " ")
    ensures BetweenRule(text).None?
  {
    PlainWords(["add", "and", "after", y]);
    JoinLacksSpaced(["add", "and", "after", y], "between");
    assert " " + "between" + " " == " between ";
  }

  lemma AndAfterRest(text: string, g: string, y: string)
    requires PlainWord(y) && text == "add " + g && g == Join(["and", "after", y], " ")
    ensures MultiAddSearch(text, 0) == Some(g)
  {
    SentenceChars(["and", "after", y]);
    assert text[..4] == "add " && text[4..] == g && text[4] == 'a';
    assert NoLineTerminator(text);
    SeveralRest(text);
  }

  /** The list "and after Y" is kept whole by the trim and the "called" strip. */
  lemma AndAfterTrim(g: string, y: string)
    requires PlainWord(y) && g == Join(["and", "after", y], " ") && g[0] == 'a'
    ensures StripWord(Trim(g), "called") == g
  {
    PlainWords(["and", "after", y]);
    SentenceEnds(["and", "after", y]);
    TrimTrimmed(g);
    NotCalledStart(g);
  }

  lemma NotCalledStart(g: string)
    requires g != "" && g[0] != 'c'
    ensures StripWord(g, "called") == g
  {
    assert !StartsWith(g, "called");
  }

  /** The list "and after Y" holds no comma, no " and " and no "&". */
  lemma AndAfterMarks(g: string, y: string)
    requires PlainWord(y) && g == Join(["and", "after", y], " ")
    ensures !Contains(g, ",") && !Contains(g, " and ") && !Contains(g, "&")
  {
    PlainWords(["and", "after", y]);
    JoinLacksSpaced(["and", "after", y], "and");
    assert " " + "and" + " " == " and ";
    SentenceChars(["and", "after", y]);
    NotContainsChar(g, ",", ',');
    NotContainsChar(g, "&", '&');
  }

  lemma AndAfterSentence(g: string, x: string, y: string)
    requires x == "and" && g == x + " after " + y
    ensures g == Join(["and", "after", y], " ")
  {
    assert ["and", "after", y][1..] == ["after", y];
    assert ["after", y][1..] == [y];
    assert Join([y], " ") == y;
    assert Join(["after", y], " ") == "after " + y;
  }
}
