/** The Naver crawler's result handed to the collection use case: what
    `collect` makes of the dictionary `_parse_reviews_from_html_list`
    builds. */
module Pipeline {
  import opened Wrappers
  import opened PyText
  import opened Dates
  import opened RawValues
  import opened ProductReviews
  import opened CollectReviews
  import opened ReviewExtraction

  /** The record layout the crawler stores. */
  function Record(content: RawValue, rating: RawValue, createdAt: RawValue, writer: RawValue): seq<(RawValue, RawValue)> {
    [(Str("content"), content), (Str("rating"), rating), (Str("created_at"), createdAt), (Str("review_writer"), writer)]
  }

  /** Each field of a record is read back under its own key. */
  lemma RecordLookups(c: RawValue, g: RawValue, d: RawValue, w: RawValue)
    ensures HasKey(Record(c, g, d, w), "rating")
    ensures Get(Record(c, g, d, w), "content") == c
    ensures Get(Record(c, g, d, w), "rating") == g
    ensures Get(Record(c, g, d, w), "created_at") == d
    ensures Get(Record(c, g, d, w), "review_writer") == w
  {
    var es := Record(c, g, d, w);
    assert es[1].0 == Str("rating");
    assert "content" != "rating" && "content" != "created_at" && "content" != "review_writer";
    assert "rating" != "created_at" && "rating" != "review_writer";
    assert "created_at" != "review_writer";
    assert es[1..] == [(Str("rating"), g), (Str("created_at"), d), (Str("review_writer"), w)];
    assert es[2..] == [(Str("created_at"), d), (Str("review_writer"), w)];
    assert es[3..] == [(Str("review_writer"), w)];
    assert Get(es[2..], "created_at") == d;
    assert Get(es[3..], "review_writer") == w;
    assert Get(es[2..], "review_writer") == w;
    assert Get(es[1..], "review_writer") == w;
  }

  /** What `collect` reads from a record. */
  lemma RecordFields(c: RawValue, g: RawValue, d: RawValue, w: RawValue, rt: Runtime)
    ensures var f := ReadFields(Dict(Record(c, g, d, w)), rt);
            && f.content == Strip(StrOrEmpty(c, rt))
            && f.grade == GradeOf(g, rt)
            && f.createdAt == ParseDateValue(d)
            && (w == Null ==> f.writer.None?)
            && (w.Str? && w.s != [] && Stripped(w.s) ==> f.writer == Some(w.s))
  {
    RecordLookups(c, g, d, w);
    MappingFields(Record(c, g, d, w), c, g, d, w, rt);
  }

  /** What `collect` reads from a mapping with a `rating` key, given what
      the four keys it looks up hold. */
  lemma MappingFields(es: seq<(RawValue, RawValue)>, c: RawValue, g: RawValue, d: RawValue, w: RawValue, rt: Runtime)
    requires HasKey(es, "rating")
    requires Get(es, "content") == c && Get(es, "rating") == g
    requires Get(es, "created_at") == d && Get(es, "review_writer") == w
    ensures var f := ReadFields(Dict(es), rt);
            && f.content == Strip(StrOrEmpty(c, rt))
            && f.grade == GradeOf(g, rt)
            && f.createdAt == ParseDateValue(d)
            && (w == Null ==> f.writer.None?)
            && (w.Str? && w.s != [] && Stripped(w.s) ==> f.writer == Some(w.s))
  {
    if w.Str? && w.s != [] && Stripped(w.s) {
      StripOfStripped(w.s);
    }
  }

  /** The use case reads back exactly what the crawler stored for an item:
      the normalized content (stripped), the rating as the grade, the
      parsed date and the writer. */
  lemma ItemRecordFields(item: ReviewItem, pf: string -> Option<real>, rt: Runtime)
    requires item.content.Some?
    ensures var f := ReadFields(ItemRecord(item, pf), rt);
            && f.content == Strip(NormalizeContent(item.content.value))
            && f.grade == Some(ExtractRating(item.ratingText, pf))
            && f.createdAt == ExtractCreatedAt(item.dateText)
            && f.writer == ExtractWriter(item.writerText)
  {
    var content, rating := NormalizeContent(item.content.value), ExtractRating(item.ratingText, pf);
    var date, writer := ExtractCreatedAt(item.dateText), ExtractWriter(item.writerText);
    assert ItemRecord(item, pf) == Dict(Record(Str(content), Float(rating), DateOrNull(date), StrOrNull(writer)));
    TypedRecordFields(content, rating, date, writer, rt);
  }

  /** A record built from typed values reads back as those values. */
  lemma TypedRecordFields(content: string, rating: real, date: Option<CalendarDate>, writer: Option<string>, rt: Runtime)
    requires writer.Some? ==> writer.value != [] && Stripped(writer.value)
    ensures var f := ReadFields(Dict(Record(Str(content), Float(rating), DateOrNull(date), StrOrNull(writer))), rt);
            && f.content == Strip(content)
            && f.grade == Some(rating)
            && f.createdAt == date
            && f.writer == writer
  {
    RecordFields(Str(content), Float(rating), DateOrNull(date), StrOrNull(writer), rt);
    assert ParseDateValue(DateOrNull(date)) == date;
  }

  /** Entries whose every value reads with a grade. */
  predicate AllGraded(es: seq<(RawValue, RawValue)>, rt: Runtime) {
    forall i :: 0 <= i < |es| ==> ReadFields(es[i].1, rt).grade.Some?
  }

  lemma {:induction false} GatherGraded(es: seq<(RawValue, RawValue)>, url: string, rt: Runtime)
    requires AllGraded(es, rt)
    ensures forall i :: 0 <= i < |Gather(es, url, rt)| ==> Gather(es, url, rt)[i].grade.Some?
  {
    if es != [] {
      assert AllGraded(es[1..], rt) by {
        forall i | 0 <= i < |es[1..]| ensures ReadFields(es[1..][i].1, rt).grade.Some? {
          assert es[1..][i] == es[i + 1];
        }
      }
      GatherGraded(es[1..], url, rt);
      KeptGraded(es[0], url, rt);
      assert Gather(es, url, rt) == Kept(es[0], url, rt) + Gather(es[1..], url, rt);
    }
  }

  lemma KeptGraded(e: (RawValue, RawValue), url: string, rt: Runtime)
    requires ReadFields(e.1, rt).grade.Some?
    ensures forall i :: 0 <= i < |Kept(e, url, rt)| ==> Kept(e, url, rt)[i].grade.Some?
  {
  }

  /** Every record the crawler stores carries a rating, under the keys
      1, 2, ... in order. */
  lemma CrawledEntries(pages: seq<string>, parser: Parser, pf: string -> Option<real>, rt: Runtime)
    requires ParseReviews(pages, parser, pf).Success?
    ensures var es := ParseReviews(pages, parser, pf).value.entries;
            && AllGraded(es, rt)
            && IncreasingIntKeys(es)
            && |es| == |AllItems(pages, parser)|
            && (es != [] ==> es[0].0.i == 1 && es[|es| - 1].0.i == |es|)
  {
    var es := ParseReviews(pages, parser, pf).value.entries;
    var items := AllItems(pages, parser);
    var rs := Records(items, 1, pf);
    assert rs.Success? && es == rs.value;
    forall i | 0 <= i < |es| ensures ReadFields(es[i].1, rt).grade.Some? {
      assert es[i].1 == ItemRecord(items[i], pf);
      ItemRecordFields(items[i], pf, rt);
    }
  }

  /** A mapping whose gathered reviews are already in id order is collected
      exactly as gathered, or fails with nothing collected when nothing is
      gathered: sorting leaves it as it is. */
  lemma CollectedAsGathered(raw: RawValue, url: string, rt: Runtime)
    requires raw.Dict? && SortedById(Gather(raw.entries, url, rt))
    ensures Normalize(raw, url, rt)
         == if Gather(raw.entries, url, rt) == [] then Failure(NoReviewsCollected)
            else Success(Gather(raw.entries, url, rt))
  {
    assert Items(raw) == Some(raw.entries);
    if Gather(raw.entries, url, rt) != [] {
      NormalizeKeepsSortedGather(raw, url, rt);
    }
  }

  /** What is gathered from entries with increasing int keys from `lo` to
      `hi` that all read with a grade: strictly increasing ids between `lo`
      and `hi`, each review with a grade. */
  lemma GatheredInOrder(es: seq<(RawValue, RawValue)>, lo: int, hi: int, url: string, rt: Runtime)
    requires IncreasingIntKeys(es) && AllGraded(es, rt)
    requires es != [] ==> es[0].0.i == lo && es[|es| - 1].0.i == hi
    ensures var g := Gather(es, url, rt);
            && StrictlyIncreasingIds(g) && SortedById(g)
            && (forall i :: 0 <= i < |g| ==> lo <= g[i].id <= hi && g[i].grade.Some?)
  {
    GatherIncreasingKeys(es, url, rt);
    GatherGraded(es, url, rt);
    if es == [] {
      assert Gather(es, url, rt) == [];
    }
  }

  /** The crawler's dictionary survives `collect` in order: the use case
      returns exactly the reviews it gathers, unsorted, and fails with
      nothing collected only when every item's content is blank. Those
      reviews have strictly increasing ids among the positions 1..n of the
      n items crawled, and every one has a grade (the crawler always stores
      a rating, 0.0 when none could be read). */
  lemma CrawledResultCollected(pages: seq<string>, parser: Parser, pf: string -> Option<real>, url: string, rt: Runtime)
    requires ParseReviews(pages, parser, pf).Success?
    ensures var raw := ParseReviews(pages, parser, pf).value;
            var g := Gather(raw.entries, url, rt);
            && Normalize(raw, url, rt) == (if g == [] then Failure(NoReviewsCollected) else Success(g))
            && StrictlyIncreasingIds(g)
            && (forall i :: 0 <= i < |g| ==> 1 <= g[i].id <= |AllItems(pages, parser)| && g[i].grade.Some?)
  {
    var raw := ParseReviews(pages, parser, pf).value;
    CrawledEntries(pages, parser, pf, rt);
    GatheredInOrder(raw.entries, 1, |AllItems(pages, parser)|, url, rt);
    CollectedAsGathered(raw, url, rt);
  }
}
