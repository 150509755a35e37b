/**
 * The image locator, getImageUrl of epic.go: the archive URL of an image
 * record, built from the year, month and day of its capture timestamp, its
 * base file name and the API key. Month and day are written with `%d`, so
 * without zero padding.
 */
module Locator {
  import opened Options
  import opened Digits
  import opened Records
  import opened TimeLayout

  const ArchivePrefix: string := NasaUrl + "/archive/natural/"

  /**
   * getImageUrl(image) with the key passed in: None where the timestamp does
   * not parse (where the Go code calls log.Fatal), else the archive URL.
   */
  function ImageUrl(image: Image, apiKey: string): (r: Option<string>)
    ensures r.Some? <==> Parse(image.date).Some?
  {
    var t :- Parse(image.date);
    Some(ArchivePrefix + Decimal(t.year) + "/" + Decimal(t.month) + "/" + Decimal(t.day)
         + "/png/" + image.image + ".png?api_key=" + apiKey)
  }

  /** A run of digits at the front of the text, as a number. */
  function Number(s: string): (r: Option<Scan>)
  {
    var k := LeadingDigits(s);
    if k == 0 then None else Some(Scan(Value(s[..k]), s[k..]))
  }

  /**
   * The date an archive URL names: the three numbers that follow the archive
   * prefix, each closed by a '/'.
   */
  function ArchiveDate(url: string): Option<(nat, nat, nat)>
  {
    if !(ArchivePrefix <= url) then None else
    var year :- Number(url[|ArchivePrefix|..]);
    var s1 :- Literal(year.rest, '/');
    var month :- Number(s1);
    var s2 :- Literal(month.rest, '/');
    var day :- Number(s2);
    var _ :- Literal(day.rest, '/');
    Some((year.value, month.value, day.value))
  }

  lemma Append3(a: string, b: string, c: string)
    ensures a + b + c == a + (b + c)
  {
  }

  lemma NumberOfDecimal(n: nat, rest: string)
    ensures Number(Decimal(n) + ("/" + rest)) == Some(Scan(n, "/" + rest))
  {
    var d := Decimal(n);
    LeadingDigitsOfAppend(d, "/" + rest);
    assert (d + ("/" + rest))[..|d|] == d;
    assert (d + ("/" + rest))[|d|..] == "/" + rest;
  }

  lemma ArchiveDateOfText(year: nat, month: nat, day: nat, tail: string)
    ensures ArchiveDate(ArchivePrefix + (Decimal(year) + ("/" + (Decimal(month) + ("/" + (Decimal(day) + ("/" + tail)))))))
            == Some((year, month, day))
  {
    var r2 := Decimal(day) + ("/" + tail);
    var r1 := Decimal(month) + ("/" + r2);
    var r0 := Decimal(year) + ("/" + r1);
    assert (ArchivePrefix + r0)[|ArchivePrefix|..] == r0;
    NumberOfDecimal(year, r1);
    LiteralOfAppend('/', r1);
    NumberOfDecimal(month, r2);
    LiteralOfAppend('/', r2);
    NumberOfDecimal(day, tail);
    LiteralOfAppend('/', tail);
  }

  /** Whatever its padding, the URL names the day of the timestamp: ArchiveDate inverts ImageUrl. */
  lemma ArchiveDateOfImageUrl(image: Image, apiKey: string)
    requires Parse(image.date).Some?
    ensures ArchiveDate(ImageUrl(image, apiKey).value)
            == Some((Parse(image.date).value.year, Parse(image.date).value.month, Parse(image.date).value.day))
  {
    var t := Parse(image.date).value;
    var y, m, d := Decimal(t.year), Decimal(t.month), Decimal(t.day);
    var rest := image.image + ".png?api_key=" + apiKey;
    var tail := "png/" + rest;
    // from the left-nested concatenation of ImageUrl to the right-nested one ArchiveDate reads
    Append3(ArchivePrefix + y + "/" + m + "/" + d, "/png/", image.image);
    Append3(ArchivePrefix + y + "/" + m + "/" + d, "/png/" + image.image, ".png?api_key=");
    Append3(ArchivePrefix + y + "/" + m + "/" + d, "/png/" + image.image + ".png?api_key=", apiKey);
    Append3("/png/", image.image, ".png?api_key=");
    Append3("/png/", image.image + ".png?api_key=", apiKey);
    Append3(image.image, ".png?api_key=", apiKey);
    assert "/png/" == "/" + "png/";
    Append3("/", "png/", rest);
    var r2 := "/" + tail;
    Append3(ArchivePrefix + y + "/" + m + "/", d, r2);
    Append3(ArchivePrefix + y + "/" + m, "/", d + r2);
    Append3(ArchivePrefix + y + "/", m, "/" + (d + r2));
    Append3(ArchivePrefix + y, "/", m + ("/" + (d + r2)));
    Append3(ArchivePrefix, y, "/" + (m + ("/" + (d + r2))));
    ArchiveDateOfText(t.year, t.month, t.day, tail);
  }

  /** Images of different days never share an archive URL. */
  lemma ImageUrlSeparatesDays(a: Image, b: Image, keyA: string, keyB: string)
    requires ImageUrl(a, keyA).Some? && ImageUrl(a, keyA) == ImageUrl(b, keyB)
    ensures Parse(a.date).value.year == Parse(b.date).value.year
    ensures Parse(a.date).value.month == Parse(b.date).value.month
    ensures Parse(a.date).value.day == Parse(b.date).value.day
  {
    ArchiveDateOfImageUrl(a, keyA);
    ArchiveDateOfImageUrl(b, keyB);
  }

  /**
   * The URL depends on the date part of the timestamp only: two images with
   * the same name captured on the same day have the same URL, whatever the
   * time of day.
   */
  lemma ImageUrlIgnoresTimeOfDay(name: string, a: string, b: string, apiKey: string)
    requires Parse(a).Some? && Parse(b).Some?
    requires a[..10] == b[..10]
    ensures ImageUrl(Image(name, a), apiKey) == ImageUrl(Image(name, b), apiKey)
  {
    assert a[..4] == a[..10][..4] && b[..4] == b[..10][..4];
    assert a[5..7] == a[..10][5..7] && b[5..7] == b[..10][5..7];
    assert a[8..10] == a[..10][8..10] && b[8..10] == b[..10][8..10];
    var ta, tb := Parse(a).value, Parse(b).value;
    assert ta.year == tb.year && ta.month == tb.month && ta.day == tb.day;
  }

  /**
   * For every timestamp text the layout admits, the URL is exactly the
   * archive prefix, the unpadded year, month and day, and the image's file.
   */
  lemma ImageUrlOfLayout(t: Timestamp, spaces: nat, shortHour: bool, fraction: string, name: string, apiKey: string)
    requires Valid(t) && spaces >= 1 && IsFraction(fraction)
    ensures ImageUrl(Image(name, Layout(t, spaces, shortHour, fraction)), apiKey)
            == Some(NasaUrl + "/archive/natural/" + Decimal(t.year) + "/" + Decimal(t.month) + "/"
                    + Decimal(t.day) + "/png/" + name + ".png?api_key=" + apiKey)
  {
    ParseLayout(t, spaces, shortHour, fraction);
  }

  /** The `%d` fields of the capture timestamp of TestParseDate's image record. */
  lemma OctoberDecimals(year: nat, month: nat, day: nat)
    requires year == 2015 && month == 10 && day == 31
    ensures Decimal(year) == "2015" && Decimal(month) == "10" && Decimal(day) == "31"
  {
    DecimalFour(year, "2015");
    DecimalTwo(month, "10");
    DecimalTwo(day, "31");
  }

  /** The `%d` fields of a June timestamp: the month keeps its single digit. */
  lemma JuneDecimals(year: nat, month: nat, day: nat)
    requires year == 2015 && month == 6 && day == 13
    ensures Decimal(year) == "2015" && Decimal(month) == "6" && Decimal(day) == "13"
  {
    DecimalFour(year, "2015");
    DecimalTwo(day, "13");
  }

  /**
   * The image record of TestParseDate (epic_test.go:92-128), captured
   * 2015-10-31 22:08:19: its URL has the form TestDownloadImage uses
   * (epic_test.go:82).
   */
  lemma ImageUrlExample(date: string, apiKey: string)
    requires date == "2015-10-31 22:08:19"
    ensures ImageUrl(Image("epic_1b_20151031221308", date), apiKey)
            == Some(NasaUrl + "/archive/natural/" + "2015" + "/" + "10" + "/" + "31" + "/png/"
                    + "epic_1b_20151031221308" + ".png?api_key=" + apiKey)
  {
    var t := Timestamp(2015, 10, 31, 22, 8, 19);
    FormatOctoberExample(t);
    assert date == Format(t);
    OctoberDecimals(t.year, t.month, t.day);
    ImageUrlOfLayout(t, 1, false, "", "epic_1b_20151031221308", apiKey);
  }

  /** A June date: the month is written "6", not "06". */
  lemma ImageUrlUnpaddedMonth(date: string, apiKey: string)
    requires date == "2015-06-13 00:31:45"
    ensures ImageUrl(Image("epic_1b_20150613003633", date), apiKey)
            == Some(NasaUrl + "/archive/natural/" + "2015" + "/" + "6" + "/" + "13" + "/png/"
                    + "epic_1b_20150613003633" + ".png?api_key=" + apiKey)
  {
    var u := Timestamp(2015, 6, 13, 0, 31, 45);
    FormatJuneExample(u);
    assert date == Format(u);
    JuneDecimals(u.year, u.month, u.day);
    ImageUrlOfLayout(u, 1, false, "", "epic_1b_20150613003633", apiKey);
  }
}
