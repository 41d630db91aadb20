/**
  The clean-up applied to the Mermaid text a model returns: trim it, and put
  the `flowchart TD` header in front unless the text already starts with one.
 */
module Normalize {
  import opened Text
  import opened MermaidSyntax

  /** The regular expression `^flowchart\s+TD\b` matching with `\s+` covering
      positions 9 to `k`. */
  predicate HeaderMatch(s: string, k: int) {
    9 < k && k + 2 <= |s| && s[..9] == "flowchart" &&
    (forall j :: 9 <= j < k ==> IsSpace(s[j])) &&
    s[k] == 'T' && s[k + 1] == 'D' && (k + 2 == |s| || !IsWordChar(s[k + 2]))
  }

  /** `/^flowchart\s+TD\b/.test(s)`: the greedy `\s+` takes the whole run of
      white space after "flowchart"; `\b` after the word character `D` needs
      the end of the text or a non-word character. */
  predicate HasHeader(s: string) {
    |s| >= 9 && s[..9] == "flowchart" &&
    var k := SpaceRunEnd(s, 9);
    k > 9 && k + 2 <= |s| && s[k] == 'T' && s[k + 1] == 'D' && (k + 2 == |s| || !IsWordChar(s[k + 2]))
  }

  /** Taking the whole run of white space loses no match: the test succeeds
      exactly when some split of the text matches the expression. */
  lemma HasHeaderMatches(s: string)
    ensures HasHeader(s) <==> exists k :: HeaderMatch(s, k)
  {
    if HasHeader(s) {
      assert HeaderMatch(s, SpaceRunEnd(s, 9));
    }
    if exists k :: HeaderMatch(s, k) {
      var k :| HeaderMatch(s, k);
      var e := SpaceRunEnd(s, 9);
      if e < k {
        assert IsSpace(s[e]);
      } else if e > k {
        assert IsSpace(s[k]);
      }
    }
  }

  /** `normalizeMermaid(code)`; `None` is a missing `code`. */
  function NormalizeMermaid(code: Option<string>): string {
    var cleaned := Trim(if code.Some? then code.value else "");
    if cleaned == "" then ""
    else if !HasHeader(cleaned) then Header + "\n" + cleaned
    else cleaned
  }

  lemma PrefixedHeader(cleaned: string)
    requires cleaned != "" && Trimmed(cleaned)
    ensures HasHeader(Header + "\n" + cleaned) && Trimmed(Header + "\n" + cleaned)
  {
    var s := Header + "\n" + cleaned;
    assert s[..9] == "flowchart";
    assert s[9] == ' ' && s[10] == 'T' && s[11] == 'D' && s[12] == '\n';
    assert SpaceRunEnd(s, 10) == 10;
    assert s[|s| - 1] == cleaned[|cleaned| - 1];
  }

  /** The result is empty exactly when the input is missing or white space
      only; otherwise it is the trimmed input, with the header put in front
      when it had none, and it starts with the header. */
  lemma NormalizeShape(code: Option<string>)
    ensures var cleaned := Trim(if code.Some? then code.value else "");
            var r := NormalizeMermaid(code);
            (r == "" <==> code.None? || NoSpaceless(code.value)) &&
            (r != "" ==> HasHeader(r) && Trimmed(r)) &&
            (HasHeader(cleaned) ==> r == cleaned) &&
            (cleaned != "" && !HasHeader(cleaned) ==> r == Header + "\n" + cleaned)
  {
    var cleaned := Trim(if code.Some? then code.value else "");
    if cleaned != "" && !HasHeader(cleaned) {
      PrefixedHeader(cleaned);
    }
  }

  /** Normalising twice is normalising once. */
  lemma NormalizeIdempotent(code: Option<string>)
    ensures NormalizeMermaid(Some(NormalizeMermaid(code))) == NormalizeMermaid(code)
  {
    var r := NormalizeMermaid(code);
    NormalizeShape(code);
    if r != "" {
      TrimTrimmed(r);
    }
  }
}
