/**
 * The text handling of the video streamer: parsing a preferred resolution
 * such as "1920x1080", keeping the `width` and `height` entries of ffprobe's
 * `key=value` report, and the settings the streamer derives from both when it
 * is created. Running ffprobe and ffmpeg, reading frames and resizing them are
 * not modelled; ffprobe's report is an input.
 */
module Streamer {
  import opened Wrappers
  import opened Text

  // ---------------------------------------------------------------------------
  // resTextToTuple
  // ---------------------------------------------------------------------------

  /** The separators tried, in this order. */
  const Separators: seq<char> := ['x', ':', ';', '/']

  /**
   * What one separator yields: a pair when the separator occurs exactly once
   * and the text on both sides of it reads as an integer.
   */
  function TrySeparator(resText: string, sep: char): (r: Option<(int, int)>)
    ensures r.Some? ==> exists i :: (OnlyAt(resText, sep, i) &&
      ParseInt(resText[..i]) == Some(r.value.0) && ParseInt(resText[i + 1..]) == Some(r.value.1))
    ensures forall i :: OnlyAt(resText, sep, i) && ParseInt(resText[..i]).Some? && ParseInt(resText[i + 1..]).Some? ==> r.Some?
  {
    SplitInTwo(resText, sep);
    var a := Split(resText, sep);
    if |a| != 2 then None
    else if ParseInt(a[0]).Some? && ParseInt(a[1]).Some? then Some((ParseInt(a[0]).value, ParseInt(a[1]).value))
    else None
  }

  /** The pair given by the first separator of `seps` that yields one. */
  function FirstResolution(resText: string, seps: seq<char>): (r: Option<(int, int)>)
    ensures r.Some? ==> exists j :: (0 <= j < |seps| && r == TrySeparator(resText, seps[j]) &&
      forall i :: 0 <= i < j ==> TrySeparator(resText, seps[i]).None?)
    decreases |seps|
  {
    if seps == [] then None
    else if TrySeparator(resText, seps[0]).Some? then TrySeparator(resText, seps[0])
    else
      assert forall k :: 0 <= k < |seps| - 1 ==> seps[1..][k] == seps[k + 1];
      FirstResolution(resText, seps[1..])
  }

  /** Separators that yield nothing can be dropped from the front. */
  lemma {:induction false} FirstResolutionSkips(resText: string, seps: seq<char>, k: nat)
    requires k <= |seps|
    requires forall j :: 0 <= j < k ==> TrySeparator(resText, seps[j]).None?
    ensures FirstResolution(resText, seps) == FirstResolution(resText, seps[k..])
    decreases k
  {
    if k > 0 {
      FirstResolutionSkips(resText, seps[1..], k - 1);
      assert seps[1..][k - 1..] == seps[k..];
    }
  }

  /** Parses a resolution such as "1920x1080"; None when no separator gives two integers. */
  method ResTextToTuple(resText: string) returns (r: Option<(int, int)>)
    ensures r == FirstResolution(resText, Separators)
  {
    for k := 0 to |Separators|
      invariant FirstResolution(resText, Separators) == FirstResolution(resText, Separators[k..])
    {
      var sep := Separators[k];
      assert Separators[k..][0] == sep && Separators[k..][1..] == Separators[k + 1..];
      var a := Split(resText, sep);
      if |a| != 2 {
        continue;
      }
      var x, y := ParseInt(a[0]), ParseInt(a[1]);
      if x.Some? && y.Some? {
        return Some((x.value, y.value));
      }
    }
    return None;
  }

  /** The result comes from the first separator that splits the text into exactly two integers. */
  lemma FirstSeparatorWins(resText: string, k: nat)
    requires k < |Separators|
    requires TrySeparator(resText, Separators[k]).Some?
    requires forall j :: 0 <= j < k ==> TrySeparator(resText, Separators[j]).None?
    ensures FirstResolution(resText, Separators) == TrySeparator(resText, Separators[k])
  {
    FirstResolutionSkips(resText, Separators, k);
  }

  /** None exactly when no separator yields a pair. */
  lemma {:induction false} NoResolutionIff(resText: string, seps: seq<char>)
    ensures FirstResolution(resText, seps).None? <==> forall j :: 0 <= j < |seps| ==> TrySeparator(resText, seps[j]).None?
    decreases |seps|
  {
    if seps != [] {
      NoResolutionIff(resText, seps[1..]);
      if TrySeparator(resText, seps[0]).None? {
        assert FirstResolution(resText, seps) == FirstResolution(resText, seps[1..]);
        assert forall j :: 1 <= j < |seps| ==> seps[j] == seps[1..][j - 1];
      }
    }
  }

  /**
   * A text that 'x' cuts into more than two pieces, such as "1x2x3", and that
   * holds none of the other separators gives None.
   */
  lemma ThreePiecesRejected(text: string)
    requires |Split(text, 'x')| > 2
    requires ':' !in text && ';' !in text && '/' !in text
    ensures FirstResolution(text, Separators) == None
  {
    SplitWithoutSep(text, ':');
    SplitWithoutSep(text, ';');
    SplitWithoutSep(text, '/');
    assert forall j :: 0 <= j < |Separators| ==> TrySeparator(text, Separators[j]) == None by {
      assert Separators == ['x', ':', ';', '/'];
    }
    NoResolutionIff(text, Separators);
  }

  /** "1x2x3" is such a text. */
  lemma ThreePiecesExample()
    ensures |Split("1x2x3", 'x')| == 3
    ensures ':' !in "1x2x3" && ';' !in "1x2x3" && '/' !in "1x2x3"
  {
    SplitAtFirst("1", 'x', "2x3");
    SplitAtFirst("2", 'x', "3");
    SplitWithoutSep("3", 'x');
  }

  /** `resTextToTuple(str(w) + "x" + str(h)) == (w, h)` for all integers w and h. */
  lemma ResolutionRoundTrip(w: int, h: int)
    ensures FirstResolution(IntStr(w) + "x" + IntStr(h), Separators) == Some((w, h))
  {
    var a, b := IntStr(w), IntStr(h);
    SplitRendered(w, h);
    ParseIntStr(w);
    ParseIntStr(h);
    assert TrySeparator(a + "x" + b, Separators[0]) == Some((w, h));
    FirstSeparatorWins(a + "x" + b, 0);
  }

  /** A resolution text ending in U+001F gives None: `int()` raises on the piece after the 'x'. */
  lemma SeparatorControlSpoilsResolution()
    ensures FirstResolution("3x5\U{001F}", Separators) == None
  {
    var text := "3x5\U{001F}";
    assert text == "3" + ['x'] + "5\U{001F}";
    SplitAtFirst("3", 'x', "5\U{001F}");
    SplitWithoutSep("5\U{001F}", 'x');
    IntKeepsSeparatorControl();
    SplitWithoutSep(text, ':');
    SplitWithoutSep(text, ';');
    SplitWithoutSep(text, '/');
    assert forall j :: 0 <= j < |Separators| ==> TrySeparator(text, Separators[j]) == None by {
      assert Separators == ['x', ':', ';', '/'];
    }
    NoResolutionIff(text, Separators);
  }

  /** A rendered resolution splits at its 'x' into the two rendered numbers. */
  lemma SplitRendered(w: int, h: int)
    ensures Split(IntStr(w) + "x" + IntStr(h), 'x') == [IntStr(w), IntStr(h)]
  {
    var a, b := IntStr(w), IntStr(h);
    IntStrChars(w);
    IntStrChars(h);
    assert 'x' !in a && 'x' !in b;
    SplitAtFirst(a, 'x', b);
    SplitWithoutSep(b, 'x');
  }

  // ---------------------------------------------------------------------------
  // The key/value filter of meta_data
  // ---------------------------------------------------------------------------

  /** The ffprobe entries the streamer keeps. */
  const MetadataOfInterest: seq<string> := ["width", "height"]

  /** The text before the first '=' of a report line. */
  function KeyOf(line: string): string {
    Split(line, '=')[0]
  }

  /** A kept line with no '=' has no value: Python raises IndexError on it. */
  datatype MetaError = LineWithoutValue(line: string)

  /**
   * The dictionary built from the report lines: for a line whose key is of
   * interest, the text between its first and second '=' is stored under that key.
   */
  function FilterMeta(lines: seq<string>): (r: Result<map<string, string>, MetaError>)
    ensures r.Success? ==> forall k :: k in r.value ==> k in MetadataOfInterest
    ensures r.Failure? ==> r.error.line in MetadataOfInterest
    decreases |lines|
  {
    if lines == [] then Success(map[])
    else
      match FilterMeta(lines[..|lines| - 1])
      case Failure(e) => Failure(e)
      case Success(dic) =>
        var line := lines[|lines| - 1];
        var parts := Split(line, '=');
        if parts[0] !in MetadataOfInterest then Success(dic)
        else if |parts| < 2 then
          SplitCountsSep(line, '=');
          SplitWithoutSep(line, '=');
          Failure(LineWithoutValue(line))
        else Success(dic[parts[0] := parts[1]])
  }

  /** Once a prefix of the report fails, the whole report fails the same way. */
  lemma {:induction false} FilterMetaFailureSticks(lines: seq<string>, k: nat)
    requires k <= |lines|
    requires FilterMeta(lines[..k]).Failure?
    ensures FilterMeta(lines) == FilterMeta(lines[..k])
    decreases |lines| - k
  {
    if k < |lines| {
      var n := |lines| - 1;
      assert lines[..n][..k] == lines[..k];
      FilterMetaFailureSticks(lines[..n], k);
    } else {
      assert lines[..k] == lines;
    }
  }

  /** The width and height entries of an ffprobe report, as `Streamer.meta_data` builds them. */
  method MetaData(probeOutput: string) returns (r: Result<map<string, string>, MetaError>)
    ensures r == FilterMeta(Split(probeOutput, '\n'))
  {
    var infos := Split(probeOutput, '\n');
    var dic: map<string, string> := map[];
    for i := 0 to |infos|
      invariant FilterMeta(infos[..i]) == Success(dic)
    {
      assert infos[..i + 1][..i] == infos[..i];
      var info := infos[i];
      if Split(info, '=')[0] in MetadataOfInterest {
        if |Split(info, '=')| < 2 {
          FilterMetaFailureSticks(infos, i + 1);
          return Failure(LineWithoutValue(info));
        }
        dic := dic[Split(info, '=')[0] := Split(info, '=')[1]];
      }
    }
    assert infos[..|infos|] == infos;
    return Success(dic);
  }

  /** The key of a line is its text up to the first '=', which it does not contain. */
  lemma KeyIsTextBeforeFirstEquals(line: string)
    ensures '=' !in KeyOf(line)
    ensures '=' in line ==> |KeyOf(line)| < |line| && line[..|KeyOf(line)| + 1] == KeyOf(line) + "="
    ensures '=' !in line ==> KeyOf(line) == line
  {
    SplitPartsLackSep(line, '=');
    SplitCountsSep(line, '=');
    JoinSplit(line, '=');
    var parts := Split(line, '=');
    if '=' in line {
      assert line == parts[0] + ['='] + Join(parts[1..], '=');
      assert line[..|parts[0]| + 1] == parts[0] + "=";
    } else {
      SplitWithoutSep(line, '=');
    }
  }

  /**
   * Filtering fails exactly when some line is the bare word "width" or
   * "height": a key of interest with no '=' after it.
   */
  lemma {:induction false} FilterMetaFailsIff(lines: seq<string>)
    ensures FilterMeta(lines).Failure? <==> exists i :: 0 <= i < |lines| && lines[i] in MetadataOfInterest
    decreases |lines|
  {
    if lines != [] {
      var n := |lines| - 1;
      FilterMetaFailsIff(lines[..n]);
      var line := lines[n];
      SplitCountsSep(line, '=');
      if '=' !in line {
        SplitWithoutSep(line, '=');
      } else {
        SplitPartsLackSep(line, '=');
        assert '=' !in Split(line, '=')[0];
        assert line !in MetadataOfInterest;
      }
      assert forall i :: 0 <= i < n ==> lines[..n][i] == lines[i];
    }
  }

  /** Line i is the last of `lines` whose key is k. */
  ghost predicate LastWithKey(lines: seq<string>, k: string, i: int) {
    0 <= i < |lines| && KeyOf(lines[i]) == k && forall j :: i < j < |lines| ==> KeyOf(lines[j]) != k
  }

  /**
   * After a successful filter, key k is present exactly when it is of interest
   * and some line has it, and its value is the text between the first and
   * second '=' (`split('=')[1]`) of the LAST such line: later lines overwrite
   * earlier ones.
   */
  lemma FilterMetaEntry(lines: seq<string>, dic: map<string, string>, k: string)
    requires FilterMeta(lines) == Success(dic)
    ensures k in dic ==> k in MetadataOfInterest
    ensures k in MetadataOfInterest ==> (k in dic <==> exists i :: 0 <= i < |lines| && KeyOf(lines[i]) == k)
    ensures k in dic ==> exists i :: LastWithKey(lines, k, i) && |Split(lines[i], '=')| >= 2 && dic[k] == Split(lines[i], '=')[1]
  {
    FilterMetaKeys(lines, dic, k);
    if k in dic {
      FilterMetaLast(lines, dic, k);
    }
  }

  /** The keys kept are the keys of interest that some line has. */
  lemma {:induction false} FilterMetaKeys(lines: seq<string>, dic: map<string, string>, k: string)
    requires FilterMeta(lines) == Success(dic)
    ensures k in dic ==> k in MetadataOfInterest
    ensures k in MetadataOfInterest ==> (k in dic <==> exists i :: 0 <= i < |lines| && KeyOf(lines[i]) == k)
    decreases |lines|
  {
    if lines != [] {
      var n := |lines| - 1;
      assert FilterMeta(lines[..n]).Success?;
      var prev := FilterMeta(lines[..n]).value;
      FilterMetaKeys(lines[..n], prev, k);
      if KeyOf(lines[n]) in MetadataOfInterest && KeyOf(lines[n]) == k {
        assert k in dic;
      } else {
        assert k in dic <==> k in prev;
        assert forall i :: 0 <= i < n ==> lines[..n][i] == lines[i];
      }
    }
  }

  /** A kept key holds the value of the last line that has it. */
  lemma {:induction false} FilterMetaLast(lines: seq<string>, dic: map<string, string>, k: string)
    requires FilterMeta(lines) == Success(dic) && k in dic
    ensures exists i :: LastWithKey(lines, k, i) && |Split(lines[i], '=')| >= 2 && dic[k] == Split(lines[i], '=')[1]
    decreases |lines|
  {
    var n := |lines| - 1;
    assert FilterMeta(lines[..n]).Success?;
    var prev := FilterMeta(lines[..n]).value;
    var parts := Split(lines[n], '=');
    if parts[0] in MetadataOfInterest && parts[0] == k {
      assert LastWithKey(lines, k, n);
    } else {
      assert k in prev && dic[k] == prev[k];
      FilterMetaKeys(lines[..n], prev, k);
      FilterMetaLast(lines[..n], prev, k);
      var i :| LastWithKey(lines[..n], k, i) && |Split(lines[..n][i], '=')| >= 2 && prev[k] == Split(lines[..n][i], '=')[1];
      assert lines[..n][i] == lines[i];
      assert forall j :: i < j < n ==> lines[..n][j] == lines[j];
      assert LastWithKey(lines, k, i);
    }
  }

  // ---------------------------------------------------------------------------
  // Streamer.__init__
  // ---------------------------------------------------------------------------

  /** The fields a streamer holds once created, before ffmpeg is started. */
  datatype Settings = Settings(
    name: string,
    url: string,
    imgRate: int,
    resolution: Option<(int, int)>,
    doResize: bool,
    shape: (int, int),
    imgCount: nat)

  /** Why creating a streamer raises. */
  datatype InitError =
    | BadMetadataLine(line: string)   // IndexError in meta_data
    | MissingEntry(key: string)       // KeyError on infos[key]
    | NotAnInteger(key: string)       // ValueError from int(infos[key])

  /** The dimension stored under `key`, or the error reading it raises. */
  function Dimension(infos: map<string, string>, key: string): Result<int, InitError> {
    if key !in infos then Failure(MissingEntry(key))
    else if ParseInt(infos[key]).None? then Failure(NotAnInteger(key))
    else Success(ParseInt(infos[key]).value)
  }

  /** The (width, height) `Streamer.__init__` reads from ffprobe's report, or the error it raises. */
  function ReadShape(probeOutput: string): Result<(int, int), InitError> {
    match FilterMeta(Split(probeOutput, '\n'))
    case Failure(LineWithoutValue(line)) => Failure(BadMetadataLine(line))
    case Success(infos) =>
      match Dimension(infos, "width")
      case Failure(e) => Failure(e)
      case Success(width) =>
        match Dimension(infos, "height")
        case Failure(e) => Failure(e)
        case Success(height) => Success((width, height))
  }

  /**
   * What `Streamer(name, url, img_rate, resol)` stores, given the text ffprobe
   * printed for the url.
   */
  function NewStreamer(name: string, url: string, imgRate: int, resol: string, probeOutput: string): (r: Result<Settings, InitError>)
    ensures r.Success? <==> ReadShape(probeOutput).Success?
    ensures r.Success? ==> r.value.name == name && r.value.imgRate == imgRate && r.value.imgCount == 0
    ensures r.Success? ==> (r.value.doResize <==> r.value.resolution.Some?)
  {
    var resolution := FirstResolution(resol, Separators);
    match ReadShape(probeOutput)
    case Failure(e) => Failure(e)
    case Success(shape) => Success(Settings(name, Strip(url), imgRate, resolution, resolution.Some?, shape, 0))
  }

  /**
   * The streamer resizes exactly when its resolution text parsed, and then to
   * the pair the first successful separator gives.
   */
  lemma ResizeIffParsed(name: string, url: string, imgRate: int, resol: string, probeOutput: string)
    requires NewStreamer(name, url, imgRate, resol, probeOutput).Success?
    ensures var s := NewStreamer(name, url, imgRate, resol, probeOutput).value;
      && (s.doResize <==> exists k :: 0 <= k < |Separators| && TrySeparator(resol, Separators[k]).Some?)
      && (s.doResize ==> exists k :: 0 <= k < |Separators| && s.resolution == TrySeparator(resol, Separators[k]))
  {
    NewStreamerResolution(name, url, imgRate, resol, probeOutput);
    ResolutionIff(resol, Separators);
  }

  /** A pair is found exactly when some separator yields one, and it is one that some separator yields. */
  lemma ResolutionIff(resText: string, seps: seq<char>)
    ensures FirstResolution(resText, seps).Some? <==> exists k :: 0 <= k < |seps| && TrySeparator(resText, seps[k]).Some?
    ensures FirstResolution(resText, seps).Some? ==>
      exists k :: 0 <= k < |seps| && FirstResolution(resText, seps) == TrySeparator(resText, seps[k])
  {
    NoResolutionIff(resText, seps);
  }

  /** A new streamer's resolution is what the separators give, and it resizes iff there is one. */
  lemma NewStreamerResolution(name: string, url: string, imgRate: int, resol: string, probeOutput: string)
    requires NewStreamer(name, url, imgRate, resol, probeOutput).Success?
    ensures NewStreamer(name, url, imgRate, resol, probeOutput).value.resolution == FirstResolution(resol, Separators)
    ensures NewStreamer(name, url, imgRate, resol, probeOutput).value.doResize == FirstResolution(resol, Separators).Some?
  {
  }

  /** A new streamer has read no frame, holds the stripped url and takes its shape from ffprobe's report. */
  lemma ShapeFromReport(name: string, url: string, imgRate: int, resol: string, probeOutput: string)
    requires NewStreamer(name, url, imgRate, resol, probeOutput).Success?
    ensures var s := NewStreamer(name, url, imgRate, resol, probeOutput).value;
      && s.imgCount == 0
      && s.url == Strip(url)
      && FilterMeta(Split(probeOutput, '\n')).Success?
      && var infos := FilterMeta(Split(probeOutput, '\n')).value;
      && "width" in infos && "height" in infos
      && ParseInt(infos["width"]) == Some(s.shape.0) && ParseInt(infos["height"]) == Some(s.shape.1)
  {
  }

  /** Creation fails exactly when the report has a bare key line, or lacks or garbles a dimension. */
  lemma StreamerFailsIff(name: string, url: string, imgRate: int, resol: string, probeOutput: string)
    ensures NewStreamer(name, url, imgRate, resol, probeOutput).Failure? <==>
      var lines := Split(probeOutput, '\n');
      (exists i :: 0 <= i < |lines| && lines[i] in MetadataOfInterest) ||
      (FilterMeta(lines).Success? &&
        (Dimension(FilterMeta(lines).value, "width").Failure? || Dimension(FilterMeta(lines).value, "height").Failure?))
  {
    FilterMetaFailsIff(Split(probeOutput, '\n'));
  }
}
