/** `FormatPlugin.detectEncodingAndLanguage(description, stream)`: fills in
    a book description's encoding and language from the configured defaults
    and, when enabled, from a content sniffer.

    The sniffer (`ZLLanguageDetector.findInfo`) is opaque and is passed in as
    a total function of the sample. The stream is a byte sequence with a
    closed flag; a stream whose read raises `IOException` is marked faulty. */
module Detection {
  import opened Wrappers
  import Registry

  newtype byte = x: int | 0 <= x < 256

  /** Size of the sample buffer: at most this many bytes are read. */
  const BufSize: nat := 65536

  /** The two description fields this operation reads and writes; the empty
      string means "not known". */
  datatype Description = Description(language: string, encoding: string)

  /** What the sniffer reports when it recognises the sample. */
  datatype LanguageInfo = LanguageInfo(language: string, encoding: string)

  /** An input stream: the bytes still to be read, whether it has been
      closed, and whether its underlying source fails on read. */
  datatype Stream = Stream(data: seq<byte>, closed: bool, faulty: bool)

  /** How a call ends. `Done` returns normally, with the singleton's state,
      the description as written back, the stream, and the sample handed to
      the sniffer (None when no read happened). `Thrown` is the read's
      `IOException` escaping the call: nothing was written back and the
      stream was left open. */
  datatype Outcome =
    | Done(singleton: Registry.Singleton, description: Description,
           stream: Option<Stream>, sample: Option<seq<byte>>)
    | Thrown(singleton: Registry.Singleton, stream: Option<Stream>)

  /** The two encodings the detector's answer is never allowed to be. */
  predicate IsSubsumedEncoding(e: string)
  {
    e == "US-ASCII" || e == "ISO-8859-1"
  }

  /** A detected US-ASCII or ISO-8859-1 is reported as windows-1252; any
      other encoding passes through. */
  function NormalizeEncoding(e: string): (r: string)
    ensures !IsSubsumedEncoding(r)
    ensures r != e ==> IsSubsumedEncoding(e) && r == "windows-1252"
    ensures IsSubsumedEncoding(e) ==> r == "windows-1252"
  {
    if IsSubsumedEncoding(e) then "windows-1252" else e
  }

  /** Normalising twice is normalising once. */
  lemma NormalizeIdempotent(e: string)
    ensures NormalizeEncoding(NormalizeEncoding(e)) == NormalizeEncoding(e)
  {
  }

  /** `stream.read(buffer, 0, n)`, taken to fill the buffer as far as the
      stream allows; fails (IOException) on a closed or faulty stream. On
      success returns the bytes read and the stream positioned after them. */
  function Read(s: Stream, n: nat): (r: Option<(seq<byte>, Stream)>)
    ensures r.None? <==> s.closed || s.faulty
    ensures r.Some? ==> |r.value.0| <= n && r.value.0 + r.value.1.data == s.data
    ensures r.Some? ==> |r.value.0| == n || r.value.1.data == []
    ensures r.Some? ==> !r.value.1.closed && r.value.1.faulty == s.faulty
  {
    if s.closed || s.faulty then None
    else
      var k := if |s.data| < n then |s.data| else n;
      Some((s.data[..k], s.(data := s.data[k..])))
  }

  /** `stream.close()`. */
  function Close(s: Stream): (r: Stream)
    ensures r.closed && r.data == s.data && r.faulty == s.faulty
  {
    s.(closed := true)
  }

  /** Working values after seeding from the options: each empty field takes
      the configured default, a non-empty one is kept. */
  function Seed(d: Description, o: Registry.Options): (r: Description)
    ensures d.language == "" ==> r.language == o.defaultLanguage
    ensures d.language != "" ==> r.language == d.language
    ensures d.encoding == "" ==> r.encoding == o.defaultEncoding
    ensures d.encoding != "" ==> r.encoding == d.encoding
  {
    Description(if d.language == "" then o.defaultLanguage else d.language,
                if d.encoding == "" then o.defaultEncoding else d.encoding)
  }

  /** The whole procedure. The singleton is consulted, and built if absent,
      only when a field is missing. */
  function DetectEncodingAndLanguage(s: Registry.Singleton, d: Description, stream: Option<Stream>,
                                     findInfo: seq<byte> -> Option<LanguageInfo>): (r: Outcome)
    // both fields known: nothing is touched
    ensures d.language != "" && d.encoding != "" ==> r == Done(s, d, stream, None)
    // a field is missing: the singleton has been built
    ensures d.language == "" || d.encoding == "" ==> r.singleton == Registry.Instance(s).0
    // no sniffing: defaults fill exactly the empty fields, nothing is read
    ensures var o := Registry.Instance(s).1.options;
            (d.language == "" || d.encoding == "") && (!o.languageAutoDetect || stream.None?) ==>
              r.Done? && r.sample.None? && r.stream == stream &&
              (d.language == "" ==> r.description.language == o.defaultLanguage) &&
              (d.language != "" ==> r.description.language == d.language) &&
              (d.encoding == "" ==> r.description.encoding == o.defaultEncoding) &&
              (d.encoding != "" ==> r.description.encoding == d.encoding)
    // sniffing: one bounded read, then the stream is closed
    ensures var o := Registry.Instance(s).1.options;
            (d.language == "" || d.encoding == "") && o.languageAutoDetect && stream.Some? ==>
              (r.Thrown? <==> stream.value.closed || stream.value.faulty) &&
              (r.Thrown? ==> r.stream == stream) &&
              (r.Done? ==> r.sample.Some? && |r.sample.value| <= BufSize &&
                           r.sample.value <= stream.value.data &&
                           r.stream.Some? && r.stream.value.closed &&
                           r.sample.value + r.stream.value.data == stream.value.data)
    // a detected answer replaces both fields, whatever they held before
    ensures r.Done? && r.sample.Some? && findInfo(r.sample.value).Some? ==>
              r.description.language == findInfo(r.sample.value).value.language &&
              r.description.encoding == NormalizeEncoding(findInfo(r.sample.value).value.encoding)
    // no answer: the seeded values stand
    ensures r.Done? && r.sample.Some? && findInfo(r.sample.value).None? ==>
              r.description == Seed(d, Registry.Instance(s).1.options)
  {
    if d.encoding != "" && d.language != "" then Done(s, d, stream, None)
    else
      var (s', collection) := Registry.Instance(s);
      var o := collection.options;
      var seeded := Seed(d, o);
      if o.languageAutoDetect && stream.Some? then
        match Read(stream.value, BufSize)
        case None => Thrown(s', stream)
        case Some((sample, rest)) =>
          var closed := Close(rest);
          match findInfo(sample)
          case Some(info) =>
            Done(s', Description(info.language, NormalizeEncoding(info.encoding)), Some(closed), Some(sample))
          case None => Done(s', seeded, Some(closed), Some(sample))
      else Done(s', seeded, stream, None)
  }

  /** An explicit field is replaced only by a detected answer: when detection
      is off, unavailable or inconclusive, a non-empty field comes back as it
      went in. */
  lemma ExplicitFieldsKeptUnlessDetected(s: Registry.Singleton, d: Description, stream: Option<Stream>,
                                         findInfo: seq<byte> -> Option<LanguageInfo>)
    ensures var r := DetectEncodingAndLanguage(s, d, stream, findInfo);
            r.Done? && (r.sample.None? || findInfo(r.sample.value).None?) ==>
              (d.language != "" ==> r.description.language == d.language) &&
              (d.encoding != "" ==> r.description.encoding == d.encoding)
  {
  }

  /** A known encoding does not survive a successful detection: a description
      with encoding KOI8-R and no language comes back with the detector's
      encoding. */
  lemma DetectionOverridesExplicitEncoding()
    ensures var d := Description("", "KOI8-R");
            var stream := Some(Stream([0xC1, 0xC2], false, false));
            var findInfo := (b: seq<byte>) => Some(LanguageInfo("ru", "windows-1251"));
            DetectEncodingAndLanguage(Registry.Absent, d, stream, findInfo).description ==
              Description("ru", "windows-1251")
  {
  }

  /** A detected ISO-8859-1 is written back as windows-1252. */
  lemma Latin1BecomesWindows1252(s: Registry.Singleton, d: Description, stream: Option<Stream>)
    requires d.language == ""
    requires Registry.Instance(s).1.options.languageAutoDetect
    requires stream.Some? && !stream.value.closed && !stream.value.faulty
    ensures var r := DetectEncodingAndLanguage(s, d, stream,
                                                (b: seq<byte>) => Some(LanguageInfo("de", "ISO-8859-1")));
            r.Done? && r.description == Description("de", "windows-1252")
  {
  }

  /** First use with no stream: the singleton gets built and an empty
      description receives the built-in defaults "en" and windows-1252. */
  lemma DefaultsOnFirstUse(findInfo: seq<byte> -> Option<LanguageInfo>)
    ensures var r := DetectEncodingAndLanguage(Registry.Absent, Description("", ""), None, findInfo);
            r == Done(Registry.Built(Registry.FreshCollection()), Description("en", "windows-1252"), None, None)
  {
  }

  /** With non-empty defaults and a detector that never answers with an empty
      field, a call that returns normally leaves both fields filled, so a
      second call on its result changes nothing. */
  lemma ResolutionIsStable(s: Registry.Singleton, d: Description, stream: Option<Stream>,
                           findInfo: seq<byte> -> Option<LanguageInfo>)
    requires Registry.Instance(s).1.options.defaultLanguage != ""
    requires Registry.Instance(s).1.options.defaultEncoding != ""
    requires forall b :: findInfo(b).Some? ==> findInfo(b).value.language != "" && findInfo(b).value.encoding != ""
    ensures var r := DetectEncodingAndLanguage(s, d, stream, findInfo);
            r.Done? ==>
              r.description.language != "" && r.description.encoding != "" &&
              DetectEncodingAndLanguage(r.singleton, r.description, r.stream, findInfo) ==
                Done(r.singleton, r.description, r.stream, None)
  {
  }
}
