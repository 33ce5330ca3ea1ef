/** The response-merging half of `fetch_verse`: the service answers with an
    ordered list of verse fragments, and the program folds them into one
    `Verse` whose title names the book, the chapter and the verse range. */
module FetchVerse {
  import opened Outcomes
  import opened Numerals

  /** One fragment as the service sends it; chapter and verse are numerals. */
  datatype ApiVerse = ApiVerse(bookname: string, chapter: string, verse: string, text: string)

  /** What the program shows and caches. */
  datatype Verse = Verse(title: string, text: string)

  /** The failure kinds a request can end with. `Transport` stands for the
      HTTP client's errors (timeout, non-success status, connection, other);
      the rest replace the source's assertion and `expect` panics. */
  datatype Transport = Timeout | Status | Connect | OtherTransport

  datatype FetchError =
    | TransportFailed(cause: Transport)
    | Empty
    | MalformedChapter
    | MalformedVerse

  /** The HTTP exchange, as seen by the model: a query value in, either the
      parsed fragment list or a client error out. */
  type Remote = string -> Result<seq<ApiVerse>, Transport>

  /** Sum of the fragments' text lengths, counted from the front. */
  function TotalLength(rs: seq<ApiVerse>): nat
    decreases |rs|
  {
    if |rs| == 0 then 0 else |rs[0].text| + TotalLength(rs[1..])
  }

  /** Appending a fragment adds its text length to the sum. */
  lemma {:induction false} TotalLengthSnoc(a: seq<ApiVerse>, x: ApiVerse)
    ensures TotalLength(a + [x]) == TotalLength(a) + |x.text|
    decreases |a|
  {
    if |a| == 0 {
      assert (a + [x])[1..] == [];
    } else {
      assert (a + [x])[1..] == a[1..] + [x];
      TotalLengthSnoc(a[1..], x);
    }
  }

  /** The text every fragment contributes, folded from the left with no
      separator, as `fold("", |acc, e| acc + &e.text)` does; the body is
      exactly as long as all fragment texts together. */
  function Texts(rs: seq<ApiVerse>): (r: string)
    ensures |r| == TotalLength(rs)
    decreases |rs|
  {
    if |rs| == 0 then ""
    else
      var init, last := rs[..|rs| - 1], rs[|rs| - 1];
      assert rs == init + [last];
      TotalLengthSnoc(init, last);
      Texts(init) + last.text
  }

  /** The fold's last step: a list ending in `x` contributes `x`'s text last. */
  lemma {:induction false} TextsStep(rs: seq<ApiVerse>, init: seq<ApiVerse>, x: ApiVerse)
    requires rs == init + [x]
    ensures Texts(rs) == Texts(init) + x.text
  {
    assert rs[..|rs| - 1] == init;
  }

  /** Splitting off the last element commutes with a prefix. */
  lemma SnocSplit<T>(a: seq<T>, b: seq<T>)
    requires |b| > 0
    ensures a + b == (a + b[..|b| - 1]) + [b[|b| - 1]]
    ensures b == b[..|b| - 1] + [b[|b| - 1]]
  {
  }

  /** A concatenation cut where its first part ends gives back both parts. */
  lemma SplitAt<T>(x: seq<T>, y: seq<T>)
    ensures (x + y)[..|x|] == x && (x + y)[|x|..] == y
  {
  }

  /** The left fold distributes over concatenation of fragment lists. */
  lemma {:induction false} TextsAppend(a: seq<ApiVerse>, b: seq<ApiVerse>)
    ensures Texts(a + b) == Texts(a) + Texts(b)
    decreases |b|
  {
    if |b| == 0 {
      assert a + b == a;
    } else {
      var b', y := b[..|b| - 1], b[|b| - 1];
      TextsAppend(a, b');
      SnocSplit(a, b);
      TextsStep(a + b, a + b', y);
      TextsStep(b, b', y);
    }
  }

  /** One fragment between two lists contributes its text between theirs. */
  lemma {:induction false} TextsAround(rs: seq<ApiVerse>, a: seq<ApiVerse>, x: ApiVerse, b: seq<ApiVerse>)
    requires rs == a + [x] + b
    ensures Texts(rs) == Texts(a) + x.text + Texts(b)
  {
    TextsAppend(a + [x], b);
    TextsStep(a + [x], a, x);
  }

  /** Fragment `i`'s text appears whole, between the texts before it and the
      texts after it: the body keeps every fragment, in order, unseparated. */
  lemma {:induction false} TextsSplit(rs: seq<ApiVerse>, i: nat)
    requires i < |rs|
    ensures Texts(rs) == Texts(rs[..i]) + rs[i].text + Texts(rs[i + 1..])
  {
    TextsAround(rs, rs[..i], rs[i], rs[i + 1..]);
  }

  /** The numbers a title carries. */
  datatype Span = Span(chapter: int, start: int, end: int)

  /** The first position at or after `from` holding `c`, or `|s|`. */
  function IndexFrom(s: string, c: char, from: nat): (i: nat)
    requires from <= |s|
    ensures from <= i <= |s|
    ensures i < |s| ==> s[i] == c
    ensures forall k :: from <= k < i ==> s[k] != c
    decreases |s| - from
  {
    if from == |s| || s[from] == c then from else IndexFrom(s, c, from + 1)
  }

  /** Reads a title back, given the book name it starts with. */
  function DecodeTitle(book: string, title: string): Option<Span>
  {
    var lead := book + " ";
    if |title| < |lead| || title[..|lead|] != lead then None
    else DecodeReference(title[|lead|..])
  }

  /** `chapter:verse` or `chapter:first-last`: the chapter runs up to the
      first `:`, the first verse up to a `-` that is not its own sign. */
  function DecodeReference(rest: string): Option<Span>
  {
    var colon := IndexFrom(rest, ':', 0);
    if colon == |rest| then None
    else
      match ParseI32(rest[..colon])
      case None => None
      case Some(chapter) => DecodeRange(chapter, rest[colon + 1..])
  }

  function DecodeRange(chapter: int, vs: string): Option<Span>
  {
    if |vs| == 0 then None
    else
      var dash := IndexFrom(vs, '-', 1);
      if dash == |vs| then
        match ParseI32(vs)
        case None => None
        case Some(v) => Some(Span(chapter, v, v))
      else
        match (ParseI32(vs[..dash]), ParseI32(vs[dash + 1..]))
        case (Some(a), Some(b)) => Some(Span(chapter, a, b))
        case _ => None
  }

  /** Searching a string built as `x`, separator, `y` stops at the separator
      when `x` holds none from `from` on. */
  lemma IndexOfSeparator(x: string, c: char, y: string, from: nat)
    requires from <= |x|
    requires forall k :: from <= k < |x| ==> x[k] != c
    ensures IndexFrom(x + [c] + y, c, from) == |x|
  {
    var s := x + [c] + y;
    assert s[|x|] == c;
    assert forall k :: from <= k < |x| ==> s[k] == x[k];
  }

  lemma RangeDecodes(chapter: int, start: int, end: int)
    requires I32Min <= start <= I32Max && I32Min <= end <= I32Max
    ensures var a := FormatInt(start);
            DecodeRange(chapter, if start == end then a else a + "-" + FormatInt(end))
            == Some(Span(chapter, start, end))
  {
    if start == end {
      SingleDecodes(chapter, start);
    } else {
      PairDecodes(chapter, start, end);
    }
  }

  lemma SingleDecodes(chapter: int, v: int)
    requires I32Min <= v <= I32Max
    ensures DecodeRange(chapter, FormatInt(v)) == Some(Span(chapter, v, v))
  {
    var a := FormatInt(v);
    ParseFormat(v);
    assert IndexFrom(a, '-', 1) == |a|;
  }

  lemma PairDecodes(chapter: int, start: int, end: int)
    requires I32Min <= start <= I32Max && I32Min <= end <= I32Max
    ensures DecodeRange(chapter, FormatInt(start) + "-" + FormatInt(end)) == Some(Span(chapter, start, end))
  {
    var a, b := FormatInt(start), FormatInt(end);
    ParseFormat(start);
    ParseFormat(end);
    var vs := a + "-" + b;
    IndexOfSeparator(a, '-', b, 1);
    assert vs[..|a|] == a;
    assert vs[|a| + 1..] == b;
  }

  lemma ReferenceDecodes(chapter: int, start: int, end: int)
    requires I32Min <= chapter <= I32Max && I32Min <= start <= I32Max && I32Min <= end <= I32Max
    ensures var a := FormatInt(start);
            var vs := if start == end then a else a + "-" + FormatInt(end);
            DecodeReference(FormatInt(chapter) + ":" + vs) == Some(Span(chapter, start, end))
  {
    var c, a := FormatInt(chapter), FormatInt(start);
    var vs := if start == end then a else a + "-" + FormatInt(end);
    var rest := c + ":" + vs;
    ParseFormat(chapter);
    IndexOfSeparator(c, ':', vs, 0);
    assert rest[..|c|] == c;
    assert rest[|c| + 1..] == vs;
    RangeDecodes(chapter, start, end);
  }

  /** Lines 93-97: the title for a chapter and a verse range, a single verse
      when the range starts and ends at the same number. */
  function Title(book: string, chapter: int, start: int, end: int): (r: string)
    ensures |book| + 1 < |r| && r[..|book| + 1] == book + " "
    ensures start == end ==> |r| == |book| + 2 + |FormatInt(chapter)| + |FormatInt(start)|
    ensures start != end ==>
              |r| == |book| + 3 + |FormatInt(chapter)| + |FormatInt(start)| + |FormatInt(end)|
  {
    var head := book + " " + FormatInt(chapter) + ":" + FormatInt(start);
    assert head[..|book| + 1] == book + " ";
    if start == end then head
    else
      assert (head + "-" + FormatInt(end))[..|book| + 1] == head[..|book| + 1];
      head + "-" + FormatInt(end)
  }

  /** Re-bracketing a left-nested concatenation after its first two parts. */
  lemma Regroup<T>(b: seq<T>, sp: seq<T>, c: seq<T>, colon: seq<T>, v: seq<T>)
    ensures b + sp + c + colon + v == (b + sp) + (c + colon + v)
  {
  }

  /** A title is the book, a space, and the chapter-and-range reference. */
  lemma TitleShape(book: string, chapter: int, start: int, end: int)
    ensures var a := FormatInt(start);
            var vs := if start == end then a else a + "-" + FormatInt(end);
            Title(book, chapter, start, end) == (book + " ") + (FormatInt(chapter) + ":" + vs)
  {
    var c, a := FormatInt(chapter), FormatInt(start);
    if start == end {
      Regroup(book, " ", c, ":", a);
    } else {
      var e := FormatInt(end);
      Regroup(book, " ", c, ":", a + "-" + e);
      assert book + " " + c + ":" + a + "-" + e == book + " " + c + ":" + (a + "-" + e);
    }
  }

  /** Past the book and its space, a title is read as a reference. */
  lemma DecodeLead(book: string, rest: string)
    ensures DecodeTitle(book, (book + " ") + rest) == DecodeReference(rest)
  {
    SplitAt(book + " ", rest);
  }

  /** A title names its chapter and range unambiguously: reading it back
      (knowing the book) recovers the chapter and both ends of the range. */
  lemma TitleDecodes(book: string, chapter: int, start: int, end: int)
    requires I32Min <= chapter <= I32Max && I32Min <= start <= I32Max && I32Min <= end <= I32Max
    ensures DecodeTitle(book, Title(book, chapter, start, end)) == Some(Span(chapter, start, end))
  {
    var a := FormatInt(start);
    var vs := if start == end then a else a + "-" + FormatInt(end);
    TitleShape(book, chapter, start, end);
    DecodeLead(book, FormatInt(chapter) + ":" + vs);
    ReferenceDecodes(chapter, start, end);
  }

  /** Lines 78-99: merge the fragments into one verse. Book and chapter come
      from the first fragment, the range from the first and last fragments'
      verse numbers; the fragments in between only contribute text. */
  function Merge(rs: seq<ApiVerse>): (r: Result<Verse, FetchError>)
    ensures r.Success? <==>
              && |rs| > 0
              && ParseI32(rs[0].chapter).Some?
              && ParseI32(rs[0].verse).Some?
              && ParseI32(rs[|rs| - 1].verse).Some?
    ensures |rs| == 0 ==> r == Failure(Empty)
    ensures |rs| > 0 && ParseI32(rs[0].chapter).None? ==> r == Failure(MalformedChapter)
    ensures |rs| > 0 && ParseI32(rs[0].chapter).Some?
            && (ParseI32(rs[0].verse).None? || ParseI32(rs[|rs| - 1].verse).None?)
            ==> r == Failure(MalformedVerse)
    ensures r.Success? ==> |r.value.text| == TotalLength(rs)
    ensures r.Success? ==>
              DecodeTitle(rs[0].bookname, r.value.title)
              == Some(Span(ParseI32(rs[0].chapter).value, ParseI32(rs[0].verse).value,
                           ParseI32(rs[|rs| - 1].verse).value))
  {
    if |rs| == 0 then Failure(Empty)
    else
      var chapter := ParseI32(rs[0].chapter);
      var start := ParseI32(rs[0].verse);
      var end := ParseI32(rs[|rs| - 1].verse);
      if chapter.None? then Failure(MalformedChapter)
      else if start.None? || end.None? then Failure(MalformedVerse)
      else
        TitleDecodes(rs[0].bookname, chapter.value, start.value, end.value);
        Success(Verse(Title(rs[0].bookname, chapter.value, start.value, end.value), Texts(rs)))
  }

  /** When the first and last fragments carry the same verse number, the
      title is `book chapter:verse` with no range suffix. */
  lemma SingleVerseTitle(rs: seq<ApiVerse>, chapter: int, verse: int)
    requires |rs| > 0
    requires ParseI32(rs[0].chapter) == Some(chapter)
    requires ParseI32(rs[0].verse) == Some(verse) && ParseI32(rs[|rs| - 1].verse) == Some(verse)
    ensures Merge(rs)
            == Success(Verse(rs[0].bookname + " " + FormatInt(chapter) + ":" + FormatInt(verse), Texts(rs)))
  {
    MergeParsed(rs, chapter, verse, verse);
  }

  /** Otherwise the title is `book chapter:first-last`, `last` taken from the
      final fragment. */
  lemma RangeTitle(rs: seq<ApiVerse>, chapter: int, start: int, end: int)
    requires |rs| > 0 && start != end
    requires ParseI32(rs[0].chapter) == Some(chapter)
    requires ParseI32(rs[0].verse) == Some(start) && ParseI32(rs[|rs| - 1].verse) == Some(end)
    ensures Merge(rs)
            == Success(Verse(rs[0].bookname + " " + FormatInt(chapter) + ":" + FormatInt(start)
                             + "-" + FormatInt(end), Texts(rs)))
  {
    MergeParsed(rs, chapter, start, end);
  }

  /** The fragments between the first and the last never influence whether
      the merge succeeds or what title it produces. */
  lemma TitleIgnoresMiddle(rs: seq<ApiVerse>, rs': seq<ApiVerse>)
    requires |rs| > 0 && |rs'| > 0
    requires rs[0] == rs'[0] && rs[|rs| - 1] == rs'[|rs'| - 1]
    ensures Merge(rs).Success? <==> Merge(rs').Success?
    ensures Merge(rs).Success? ==> Merge(rs).value.title == Merge(rs').value.title
  {
  }

  /** The body of a merged verse holds every fragment's text, in order and
      unseparated. */
  lemma BodyKeepsFragments(rs: seq<ApiVerse>, i: nat)
    requires i < |rs|
    requires ParseI32(rs[0].chapter).Some? && ParseI32(rs[0].verse).Some? && ParseI32(rs[|rs| - 1].verse).Some?
    ensures Merge(rs).value.text == Texts(rs[..i]) + rs[i].text + Texts(rs[i + 1..])
  {
    TextsSplit(rs, i);
  }

  /** With canonical numerals the title repeats the fields verbatim, and it
      shows a range exactly when the two verse fields differ. */
  lemma CanonicalTitle(rs: seq<ApiVerse>)
    requires |rs| > 0
    requires ParseI32(rs[0].chapter).Some? && ParseI32(rs[0].verse).Some? && ParseI32(rs[|rs| - 1].verse).Some?
    requires Canonical(rs[0].chapter) && Canonical(rs[0].verse) && Canonical(rs[|rs| - 1].verse)
    ensures var head := rs[0].bookname + " " + rs[0].chapter + ":" + rs[0].verse;
            Merge(rs).value.title
            == if rs[0].verse == rs[|rs| - 1].verse then head else head + "-" + rs[|rs| - 1].verse
  {
    MergeParsed(rs, ParseI32(rs[0].chapter).value, ParseI32(rs[0].verse).value,
                ParseI32(rs[|rs| - 1].verse).value);
    FormatParse(rs[0].chapter);
    FormatParse(rs[0].verse);
    FormatParse(rs[|rs| - 1].verse);
  }

  /** `n` printed, and read back from its printed form. */
  lemma Numeral(n: nat, s: string)
    requires n <= I32Max && FormatNat(n) == s
    ensures ParseI32(s) == Some(n) && FormatInt(n) == s
  {
    Unpadded("", n);
    assert "" + s == s;
  }

  /** The merge of fragments whose numerals parse to the given values. */
  lemma MergeParsed(rs: seq<ApiVerse>, chapter: int, start: int, end: int)
    requires |rs| > 0
    requires ParseI32(rs[0].chapter) == Some(chapter)
    requires ParseI32(rs[0].verse) == Some(start)
    requires ParseI32(rs[|rs| - 1].verse) == Some(end)
    ensures Merge(rs) == Success(Verse(Title(rs[0].bookname, chapter, start, end), Texts(rs)))
  {
  }

  /** One fragment for John 3:16. */
  lemma SingleFragmentExample(t: string)
    ensures Merge([ApiVerse("John", "3", "16", t)]) == Success(Verse("John 3:16", t))
  {
    var rs := [ApiVerse("John", "3", "16", t)];
    assert FormatNat(16) == "16";
    Numeral(3, "3");
    Numeral(16, "16");
    MergeParsed(rs, 3, 16, 16);
    assert rs[..0] == [];
    assert Texts(rs) == t;
    assert Title("John", 3, 16, 16) == "John" + " " + "3" + ":" + "16";
    assert "John" + " " + "3" + ":" + "16" == "John 3:16";
  }

  /** Two fragments for John 3:16-17: a range title, both texts in order. */
  lemma TwoFragmentExample(t16: string, t17: string)
    ensures Merge([ApiVerse("John", "3", "16", t16), ApiVerse("John", "3", "17", t17)])
            == Success(Verse("John 3:16-17", t16 + t17))
  {
    var rs := [ApiVerse("John", "3", "16", t16), ApiVerse("John", "3", "17", t17)];
    assert FormatNat(16) == "16";
    assert FormatNat(17) == "17";
    Numeral(3, "3");
    Numeral(16, "16");
    Numeral(17, "17");
    MergeParsed(rs, 3, 16, 17);
    TwoTexts(rs);
    RangeTitleExample();
  }

  lemma RangeTitleExample()
    ensures Title("John", 3, 16, 17) == "John 3:16-17"
  {
    assert FormatNat(16) == "16";
    assert FormatNat(17) == "17";
    assert FormatInt(3) == "3";
    assert Title("John", 3, 16, 17) == "John" + " " + "3" + ":" + "16" + "-" + "17";
    assert "John" + " " + "3" + ":" + "16" + "-" + "17" == "John 3:16-17";
  }

  lemma TwoTexts(rs: seq<ApiVerse>)
    requires |rs| == 2
    ensures Texts(rs) == rs[0].text + rs[1].text
  {
    assert rs[..1] == [rs[0]];
    assert rs[..1][..0] == [];
    assert Texts(rs[..1]) == "" + rs[0].text;
  }

  /** A zero-padded chapter such as `03` is re-printed as `3`. */
  lemma PaddedChapterExample(t: string)
    ensures Merge([ApiVerse("Psalms", "03", "5", t)]).Success?
    ensures Merge([ApiVerse("Psalms", "03", "5", t)]).value.title == "Psalms 3:5"
  {
    Unpadded("0", 3);
    assert "0" + FormatNat(3) == "03";
    Numeral(3, "3");
    Numeral(5, "5");
  }

  /** Lines 61-99 after the HTTP exchange: `reply` is what the client
      returned for the query. A client error ends the request as
      `TransportFailed` before any fragment is looked at; otherwise the
      fragments are merged. */
  function Fetch(reply: Result<seq<ApiVerse>, Transport>): (r: Result<Verse, FetchError>)
    ensures reply.Failure? ==> r == Failure(TransportFailed(reply.error))
    ensures reply.Success? ==> r == Merge(reply.value)
    ensures r.Success? ==> reply.Success? && |reply.value| > 0
  {
    match reply
    case Failure(t) => Failure(TransportFailed(t))
    case Success(rs) => Merge(rs)
  }
}
