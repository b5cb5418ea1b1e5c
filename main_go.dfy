/** The Go backend (main.go): the random pick over the dataset, the JSON
    handlers' decisions, rune reversal, word wrapping for the server-drawn
    card, the download filename, and the www redirect. Every Go handler
    answers with HTTP 200, errors included; errors carry `success: false`. */
module GoServer {
  import opened Common
  import opened Dataset
  import opened Wrapping

  const StatusMovedPermanently := 301


  /** The zero value of Go's `Item` struct. */
  const ZeroItem := Item("", "", "", None)

  // ---------------------------------------------------------------------------
  // pickRandom and the random-dhikr handler
  // ---------------------------------------------------------------------------

  /** `pickRandom`: builds the pool in dataset order and returns the entry at
      the drawn index `k` (the value of `rand.Intn(len(pool))`). An unknown
      id and a category without items both give `ok == false`. */
  method PickRandom(cats: seq<Category>, categoryId: string, k: nat) returns (item: Item, catLabel: string, ok: bool)
    requires Pool(cats, categoryId) != [] ==> k < |Pool(cats, categoryId)|
    ensures ok <==> Pool(cats, categoryId) != []
    ensures ok ==> Entry(item, catLabel) == Pool(cats, categoryId)[k]
    ensures !ok ==> item == ZeroItem && catLabel == ""
  {
    var pool: seq<Entry> := [];
    for i := 0 to |cats|
      invariant pool == Pool(cats[..i], categoryId)
    {
      var cat := cats[i];
      assert cats[..i + 1][..i] == cats[..i];
      if categoryId != "" && cat.id != categoryId {
        continue;
      }
      for j := 0 to |cat.items|
        invariant pool == Pool(cats[..i], categoryId) + Tagged(cat)[..j]
      {
        pool := pool + [Entry(cat.items[j], cat.name)];
      }
      assert Tagged(cat)[..|cat.items|] == Tagged(cat);
    }
    assert cats[..|cats|] == cats;
    if |pool| == 0 {
      return ZeroItem, "", false;
    }
    var picked := pool[k];
    return picked.item, picked.categoryLabel, true;
  }

  datatype RandomReply =
    | Preflight
    | Picked(category: string, kind: string, text: string, source: string, fullAyah: string)
    | NoResults(text: string)

  /** `randomDhikrHandler`. `category` is the first `category` query value,
      or "" when there is none. */
  method RandomDhikrHandler(cats: seq<Category>, isOptions: bool, category: string, k: nat)
    returns (status: int, reply: RandomReply)
    requires Pool(cats, category) != [] ==> k < |Pool(cats, category)|
    ensures status == StatusOK
    ensures isOptions ==> reply == Preflight
    ensures !isOptions && Pool(cats, category) == [] ==> reply == NoResults(NoResultsText)
    ensures !isOptions && Pool(cats, category) != [] ==>
      var e := Pool(cats, category)[k];
      reply == Picked(e.categoryLabel, e.item.kind, e.item.text, e.item.source, e.item.fullAyah.GetOr(""))
  {
    if isOptions {
      return StatusOK, Preflight;
    }
    var item, catLabel, ok := PickRandom(cats, category, k);
    if !ok {
      return StatusOK, NoResults(NoResultsText);
    }
    return StatusOK, Picked(catLabel, item.kind, item.text, item.source, item.fullAyah.GetOr(""));
  }

  // ---------------------------------------------------------------------------
  // categoriesHandler and categoryItemsHandler
  // ---------------------------------------------------------------------------

  /** `categoriesHandler`: one brief per category, in dataset order; the
      counts add up to the size of the unfiltered pool. */
  method CategoriesHandler(cats: seq<Category>) returns (status: int, briefs: seq<Brief>)
    ensures status == StatusOK
    ensures |briefs| == |cats|
    ensures forall i :: 0 <= i < |cats| ==>
      briefs[i].id == cats[i].id && briefs[i].name == cats[i].name &&
      briefs[i].icon == cats[i].icon && briefs[i].count == |cats[i].items|
    ensures TotalCount(briefs) == |Pool(cats, "")|
  {
    briefs := [];
    for i := 0 to |cats|
      invariant briefs == Summaries(cats[..i])
    {
      briefs := briefs + [Brief(cats[i].id, cats[i].name, cats[i].icon, |cats[i].items|)];
    }
    assert cats[..|cats|] == cats;
    UnfilteredPoolSize(cats);
    status := StatusOK;
  }

  datatype ItemsReply = ItemsFound(category: string, items: seq<Item>) | ItemsError(error: string)

  /** `categoryItemsHandler`: a missing id and an unknown id are both errors
      with HTTP 200; a known id gives the first matching category's label and
      items, unchanged. */
  method CategoryItemsHandler(cats: seq<Category>, id: string) returns (status: int, reply: ItemsReply)
    ensures status == StatusOK
    ensures id == "" ==> reply == ItemsError(MissingIdText)
    ensures id != "" && FindCategory(cats, id).None? ==> reply == ItemsError(UnknownIdText)
    ensures id != "" && FindCategory(cats, id).Some? ==>
      var c := cats[FindCategory(cats, id).value];
      reply == ItemsFound(c.name, c.items)
  {
    status := StatusOK;
    if id == "" {
      return status, ItemsError(MissingIdText);
    }
    for i := 0 to |cats|
      invariant forall j :: 0 <= j < i ==> cats[j].id != id
    {
      if cats[i].id == id {
        return status, ItemsFound(cats[i].name, cats[i].items);
      }
    }
    return status, ItemsError(UnknownIdText);
  }

  // ---------------------------------------------------------------------------
  // reverseRunes
  // ---------------------------------------------------------------------------

  /** The runes of `s` in reverse order. */
  function Reverse(s: string): string
    decreases |s|
  {
    if s == [] then [] else [s[|s| - 1]] + Reverse(s[..|s| - 1])
  }

  lemma {:induction false} ReverseAt(s: string)
    ensures |Reverse(s)| == |s|
    ensures forall k :: 0 <= k < |s| ==> Reverse(s)[k] == s[|s| - 1 - k]
    decreases |s|
  {
    if s != [] {
      var n := |s|;
      var init := s[..n - 1];
      ReverseAt(init);
      var r := Reverse(s);
      var tail := Reverse(init);
      assert r == [s[n - 1]] + tail;
      forall k | 1 <= k < n ensures r[k] == s[n - 1 - k] {
        assert r[k] == tail[k - 1] == init[n - 2 - (k - 1)];
      }
    }
  }

  /** Reversing twice gives the original runes back. */
  lemma ReverseTwice(s: string)
    ensures Reverse(Reverse(s)) == s
  {
    ReverseAt(s);
    ReverseAt(Reverse(s));
  }

  /** `reverseRunes`: swaps the rune slice in place from both ends. */
  method ReverseRunes(s: string) returns (r: string)
    ensures |r| == |s|
    ensures forall k :: 0 <= k < |s| ==> r[k] == s[|s| - 1 - k]
    ensures r == Reverse(s)
  {
    var runes := new char[|s|](k requires 0 <= k < |s| => s[k]);
    var i, j := 0, |s| - 1;
    while i < j
      invariant 0 <= i <= j + 1 <= |s|
      invariant i + j == |s| - 1
      invariant forall k :: 0 <= k < i ==> runes[k] == s[|s| - 1 - k] && runes[|s| - 1 - k] == s[k]
      invariant forall k :: i <= k <= j ==> runes[k] == s[k]
    {
      runes[i], runes[j] := runes[j], runes[i];
      i, j := i + 1, j - 1;
    }
    r := runes[..];
    ReverseAt(s);
  }

  // ---------------------------------------------------------------------------
  // wrapTextRTL and strings.Fields
  // ---------------------------------------------------------------------------

  /** Go's `unicode.IsSpace`: the Latin-1 spaces and the other Unicode
      White_Space characters. */
  predicate IsSpace(c: char)
  {
    c == '\t' || c == '\n' || c == '\r' || c == ' ' ||
    c as int == 0x0B || c as int == 0x0C || c as int == 0x85 || c as int == 0xA0 ||
    c as int == 0x1680 || (0x2000 <= c as int <= 0x200A) || c as int == 0x2028 || c as int == 0x2029 ||
    c as int == 0x202F || c as int == 0x205F || c as int == 0x3000
  }

  predicate IsWord(w: string)
  {
    w != "" && forall i :: 0 <= i < |w| ==> !IsSpace(w[i])
  }

  /** The length of the run of non-space runes at the start of `s`. */
  function WordLength(s: string): (n: nat)
    ensures n <= |s|
    ensures forall i :: 0 <= i < n ==> !IsSpace(s[i])
    ensures n < |s| ==> IsSpace(s[n])
    decreases |s|
  {
    if s == [] || IsSpace(s[0]) then 0 else 1 + WordLength(s[1..])
  }

  /** `strings.Fields`: the maximal runs of non-space runes, in order. */
  function Fields(s: string): (ws: seq<string>)
    ensures forall w :: w in ws ==> IsWord(w)
    decreases |s|
  {
    if s == [] then []
    else if IsSpace(s[0]) then Fields(s[1..])
    else
      var n := WordLength(s);
      [s[..n]] + Fields(s[n..])
  }

  /** The runes of `s` that are not spaces, in order. */
  function WithoutSpaces(s: string): string
    decreases |s|
  {
    if s == [] then [] else (if IsSpace(s[0]) then [] else [s[0]]) + WithoutSpaces(s[1..])
  }

  function Concat(ws: seq<string>): string
    decreases |ws|
  {
    if ws == [] then [] else ws[0] + Concat(ws[1..])
  }

  lemma {:induction false} WithoutSpacesAppend(a: string, b: string)
    ensures WithoutSpaces(a + b) == WithoutSpaces(a) + WithoutSpaces(b)
    decreases |a|
  {
    if a != [] {
      assert (a + b)[0] == a[0] && (a + b)[1..] == a[1..] + b;
      WithoutSpacesAppend(a[1..], b);
    } else {
      assert a + b == b;
    }
  }

  lemma {:induction false} WithoutSpacesOfWord(w: string)
    requires forall i :: 0 <= i < |w| ==> !IsSpace(w[i])
    ensures WithoutSpaces(w) == w
    decreases |w|
  {
    if w != [] {
      WithoutSpacesOfWord(w[1..]);
      assert w == [w[0]] + w[1..];
    }
  }

  /** The fields hold every non-space rune of the text, in order, and nothing
      else: splitting drops only the spaces. */
  lemma {:induction false} FieldsKeepText(s: string)
    ensures Concat(Fields(s)) == WithoutSpaces(s)
    decreases |s|
  {
    if s != [] {
      if IsSpace(s[0]) {
        FieldsKeepText(s[1..]);
      } else {
        var n := WordLength(s);
        FieldsKeepText(s[n..]);
        assert s == s[..n] + s[n..];
        WithoutSpacesAppend(s[..n], s[n..]);
        WithoutSpacesOfWord(s[..n]);
        assert ([s[..n]] + Fields(s[n..]))[1..] == Fields(s[n..]);
      }
    }
  }

  /** A word followed by a space or the end of the text is measured whole. */
  lemma {:induction false} WordLengthOfWord(w: string, rest: string)
    requires forall i :: 0 <= i < |w| ==> !IsSpace(w[i])
    requires rest == [] || IsSpace(rest[0])
    ensures WordLength(w + rest) == |w|
    decreases |w|
  {
    if w == [] {
      assert w + rest == rest;
    } else {
      assert (w + rest)[0] == w[0] && (w + rest)[1..] == w[1..] + rest;
      WordLengthOfWord(w[1..], rest);
    }
  }

  /** A single word is one field. */
  lemma FieldsOfWord(w: string)
    requires IsWord(w)
    ensures Fields(w) == [w]
  {
    WordLengthOfWord(w, []);
    assert w + [] == w && w[..|w|] == w && w[|w|..] == [];
  }

  /** Fields are maximal runs: a word followed by a space is one whole field,
      never cut in two, and the fields of the rest follow it. */
  lemma FieldsAfterWord(w: string, sp: char, rest: string)
    requires IsWord(w) && IsSpace(sp)
    ensures Fields(w + [sp] + rest) == [w] + Fields(rest)
  {
    var s := w + [sp] + rest;
    WordLengthOfWord(w, [sp] + rest);
    assert s == w + ([sp] + rest);
    assert s[..|w|] == w && s[|w|..] == [sp] + rest;
    assert ([sp] + rest)[0] == sp && ([sp] + rest)[1..] == rest;
  }

  /** White space before the text is skipped: it starts no field. With
      `FieldsOfWord` and `FieldsAfterWord` this fixes `Fields` on every
      text, so the fields are exactly its maximal non-space runs. */
  lemma FieldsAfterSpace(c: char, rest: string)
    requires IsSpace(c)
    ensures Fields([c] + rest) == Fields(rest)
  {
    assert ([c] + rest)[1..] == rest;
  }

  /** Splitting words joined with single spaces gives the words back. */
  lemma {:induction false} FieldsOfJoin(ws: seq<string>)
    requires forall w :: w in ws ==> IsWord(w)
    ensures Fields(JoinLines(ws)) == ws
    decreases |ws|
  {
    if |ws| == 1 {
      FieldsOfWord(ws[0]);
    } else if |ws| > 1 {
      assert ws[0] in ws;
      assert forall w :: w in ws[1..] ==> w in ws;
      FieldsOfJoin(ws[1..]);
      assert JoinLines(ws) == ws[0] + [' '] + JoinLines(ws[1..]);
      FieldsAfterWord(ws[0], ' ', JoinLines(ws[1..]));
      assert ws == [ws[0]] + ws[1..];
    }
  }

  /** `wrapTextRTL`: greedy wrapping of the `strings.Fields` words of the
      text. No line is empty, the lines joined with single spaces are the
      words joined with single spaces, and a line wider than `maxWidth` is a
      single word. */
  method WrapTextRTL(measure: string -> real, text: string, maxWidth: real) returns (lines: seq<string>)
    ensures lines == Wrap(measure, maxWidth, Fields(text))
    ensures forall l :: l in lines ==> l != ""
    ensures JoinLines(lines) == JoinLines(Fields(text))
    ensures forall l :: l in lines && measure(l) > maxWidth ==> IsWord(l)
  {
    var words := Fields(text);
    lines := [];
    var currentLine := "";
    for i := 0 to |words|
      invariant WrapFrom(measure, maxWidth, words[i..], lines, currentLine) == Wrap(measure, maxWidth, words)
    {
      var word := words[i];
      assert words[i..][0] == word && words[i..][1..] == words[i + 1..];
      var testLine := word;
      if currentLine != "" {
        testLine := currentLine + " " + word;
      }
      var tw := measure(testLine);
      if tw > maxWidth && currentLine != "" {
        lines := lines + [currentLine];
        currentLine := word;
      } else {
        currentLine := testLine;
      }
    }
    if currentLine != "" {
      lines := lines + [currentLine];
    }
    WrapProperties(measure, maxWidth, words);
  }

  // ---------------------------------------------------------------------------
  // Card download filename
  // ---------------------------------------------------------------------------

  /** The stem of the card's download filename, from `generateCardHandler`:
      the first (at most) 20 runes of the text with each ' ' replaced by '_'. */
  function FilenameStem(text: string): (stem: string)
    ensures |stem| == Min(20, |text|)
    ensures forall i :: 0 <= i < |stem| ==> stem[i] == (if text[i] == ' ' then '_' else text[i])
  {
    var prefix := text[..Min(20, |text|)];
    seq(|prefix|, i requires 0 <= i < |prefix| => if prefix[i] == ' ' then '_' else prefix[i])
  }

  /** The stem is short, has no spaces, and is its own stem. */
  lemma StemIsFinal(text: string)
    ensures |FilenameStem(text)| <= 20
    ensures ' ' !in FilenameStem(text)
    ensures FilenameStem(FilenameStem(text)) == FilenameStem(text)
  {
    var stem := FilenameStem(text);
    assert forall i :: 0 <= i < |stem| ==> stem[i] != ' ';
  }

  /** The `Content-Disposition` filename (`zadi_<stem>.png`). */
  function CardFilename(text: string): (name: string)
    ensures |name| == |FilenameStem(text)| + 9
    ensures name[..5] == "zadi_" && name[|name| - 4..] == ".png"
    ensures name[5..|name| - 4] == FilenameStem(text)
  {
    "zadi_" + FilenameStem(text) + ".png"
  }

  // ---------------------------------------------------------------------------
  // wwwRedirect
  // ---------------------------------------------------------------------------

  predicate HasPrefix(s: string, p: string)
  {
    |p| <= |s| && s[..|p|] == p
  }

  /** Hosts that are served directly: an empty host, a www host, and the
      local development hosts. */
  predicate ExemptHost(host: string)
  {
    host == "" || HasPrefix(host, "www.") || HasPrefix(host, "localhost") || HasPrefix(host, "127.")
  }

  datatype HostDecision = Redirect(status: int, location: string) | Delegate

  /** `wwwRedirect`: a permanent redirect of any other host to its www form,
      keeping the path and, when present, the raw query. */
  function WwwRedirect(host: string, path: string, rawQuery: string): (d: HostDecision)
    ensures d.Delegate? <==> ExemptHost(host)
    ensures d.Redirect? ==> d.status == StatusMovedPermanently
    ensures d.Redirect? && rawQuery == "" ==> d.location == "https://www." + host + path
    ensures d.Redirect? && rawQuery != "" ==> d.location == "https://www." + host + path + "?" + rawQuery
  {
    if !ExemptHost(host) then
      var url := "https://www." + host + path;
      Redirect(StatusMovedPermanently, if rawQuery != "" then url + "?" + rawQuery else url)
    else Delegate
  }

  /** The redirect target's host is never redirected again, so following a
      redirect cannot loop. */
  lemma RedirectTargetIsServed(host: string, path: string, rawQuery: string)
    ensures WwwRedirect("www." + host, path, rawQuery) == Delegate
  {
    assert ("www." + host)[..4] == "www.";
  }
}
