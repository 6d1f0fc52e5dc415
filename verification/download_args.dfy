/**
  The downloader's command line for one PID: fixed flags, the programme
  type, the quality flag with friendly preset names mapped to the
  downloader's own quality lists, and the optional subtitles and proxy
  flags.
*/
module DownloadArgs {
  import opened Wrappers
  import opened Text

  /** What a download is asked to do; the paths come from the configuration. */
  datatype DownloadOptions = DownloadOptions(
    pid: string,
    mediaType: string,
    quality: string,
    subtitles: bool,
    outputDir: string,
    getIplayerPath: string,
    ffmpegPath: string,
    cacheDir: string,
    proxy: Option<string>)

  /** The program and its arguments, in order. */
  datatype Command = Command(program: string, args: seq<string>)

  /** Only the exact text "radio" selects radio; anything else is TV. */
  predicate IsRadio(mediaType: string) {
    mediaType == "radio"
  }

  /** The quality values the downloader accepts for each programme type. */
  const TvQualities: set<string> :=
    {"fhd", "hd", "sd", "web", "mobile", "1080p", "720p", "540p", "396p", "288p", "default"}
  const RadioQualities: set<string> := {"high", "standard", "low"}

  predicate IsPreset(quality: string) {
    quality == "best" || quality == "good" || quality == "worst"
  }

  /** The fallback list a preset stands for, tried in order by the downloader. */
  function Preset(radio: bool, quality: string): (levels: seq<string>)
    requires IsPreset(quality)
    ensures |levels| > 0
    ensures forall i :: 0 <= i < |levels| ==> levels[i] in (if radio then RadioQualities else TvQualities)
  {
    if radio then
      if quality == "best" then ["high", "standard", "low"]
      else if quality == "good" then ["standard", "low"]
      else ["low"]
    else
      if quality == "best" then ["fhd", "hd", "sd", "web", "mobile"]
      else if quality == "good" then ["hd", "sd", "web", "mobile"]
      else ["mobile", "web"]
  }

  /** The value passed with the quality flag: a preset's list, or the quality text unchanged. */
  function QualityValue(mediaType: string, quality: string): (v: string)
    ensures !IsPreset(quality) ==> v == quality
    ensures IsPreset(quality) ==> v == Join(Preset(IsRadio(mediaType), quality), ",")
  {
    if IsPreset(quality) then Join(Preset(IsRadio(mediaType), quality), ",") else quality
  }

  /** The arguments that never vary with the programme's options, apart from the paths. */
  function FixedArgs(o: DownloadOptions): seq<string> {
    ["--profile-dir", o.cacheDir, "--pid", o.pid, "--output", o.outputDir, "--ffmpeg", o.ffmpegPath,
     "--force", "--overwrite", "--nocopyright", "--log-progress"]
  }

  /** A proxy is used only when one is configured and it is not empty. */
  predicate UsesProxy(o: DownloadOptions) {
    o.proxy.Some? && o.proxy.value != ""
  }

  /** The command `download` spawns. */
  function BuildCommand(o: DownloadOptions): (c: Command)
    ensures c.program == o.getIplayerPath
    ensures |c.args| == 16 + (if o.subtitles then 1 else 0) + (if UsesProxy(o) then 2 else 0)
    ensures c.args[..12] == FixedArgs(o)
    ensures c.args[12] == "--type" && (c.args[13] == "radio" <==> IsRadio(o.mediaType))
    ensures c.args[13] == (if IsRadio(o.mediaType) then "radio" else "tv")
    ensures c.args[14] == (if IsRadio(o.mediaType) then "--radio-quality" else "--tv-quality")
    ensures c.args[15] == QualityValue(o.mediaType, o.quality)
    ensures o.subtitles <==> |c.args| > 16 && c.args[16] == "--subtitles"
    ensures UsesProxy(o) ==> c.args[|c.args| - 2..] == ["--proxy", o.proxy.value]
  {
    var radio := IsRadio(o.mediaType);
    var typeArgs := ["--type", if radio then "radio" else "tv"];
    var qualityArgs := [if radio then "--radio-quality" else "--tv-quality", QualityValue(o.mediaType, o.quality)];
    var subtitleArgs := if o.subtitles then ["--subtitles"] else [];
    var proxyArgs := if UsesProxy(o) then ["--proxy", o.proxy.value] else [];
    Command(o.getIplayerPath, FixedArgs(o) + typeArgs + qualityArgs + subtitleArgs + proxyArgs)
  }

  /** Radio is chosen by the media type alone: "Radio", "tv" or "" all give a TV download. */
  lemma OnlyRadioIsRadio(o: DownloadOptions)
    requires o.mediaType != "radio"
    ensures BuildCommand(o).args[12..16] == ["--type", "tv", "--tv-quality", QualityValue(o.mediaType, o.quality)]
  {
  }

  /** A quality that is not a preset name reaches the downloader verbatim, for either type. */
  lemma CustomQualityPassesThrough(o: DownloadOptions)
    requires !IsPreset(o.quality)
    ensures BuildCommand(o).args[15] == o.quality
  {
  }

  /** The TV presets as the downloader sees them. */
  lemma TvPresets()
    ensures QualityValue("tv", "best") == "fhd,hd,sd,web,mobile"
    ensures QualityValue("tv", "good") == "hd,sd,web,mobile"
    ensures QualityValue("tv", "worst") == "mobile,web"
  {
    JoinGood();
    JoinBest();
  }

  lemma JoinGood()
    ensures Join(["hd", "sd", "web", "mobile"], ",") == "hd,sd,web,mobile"
  {
    var l3 := ["sd", "web", "mobile"];
    JoinLowest();
    JoinFront("hd", l3, "sd,web,mobile");
    assert "hd" + "," + "sd,web,mobile" == "hd,sd,web,mobile";
    assert ["hd", "sd", "web", "mobile"] == ["hd"] + l3;
  }

  lemma JoinLowest()
    ensures Join(["sd", "web", "mobile"], ",") == "sd,web,mobile"
  {
    var l2 := ["web", "mobile"];
    assert Join(l2, ",") == "web,mobile";
    JoinFront("sd", l2, "web,mobile");
    assert "sd" + "," + "web,mobile" == "sd,web,mobile";
    assert ["sd", "web", "mobile"] == ["sd"] + l2;
  }

  lemma JoinBest()
    ensures Join(["fhd", "hd", "sd", "web", "mobile"], ",") == "fhd,hd,sd,web,mobile"
  {
    var l4 := ["hd", "sd", "web", "mobile"];
    JoinGood();
    JoinFront("fhd", l4, "hd,sd,web,mobile");
    assert "fhd" + "," + "hd,sd,web,mobile" == "fhd,hd,sd,web,mobile";
    assert ["fhd", "hd", "sd", "web", "mobile"] == ["fhd"] + l4;
  }

  lemma JoinFront(x: string, rest: seq<string>, joined: string)
    requires |rest| > 0 && Join(rest, ",") == joined
    ensures Join([x] + rest, ",") == x + "," + joined
  {
    assert ([x] + rest)[1..] == rest;
  }

  /** The radio presets as the downloader sees them. */
  lemma RadioPresets()
    ensures QualityValue("radio", "best") == "high,standard,low"
    ensures QualityValue("radio", "good") == "standard,low"
    ensures QualityValue("radio", "worst") == "low"
  {
  }

  /** An empty proxy setting is the same as none. */
  lemma EmptyProxyIgnored(o: DownloadOptions)
    ensures BuildCommand(o.(proxy := Some(""))) == BuildCommand(o.(proxy := None))
  {
  }
}
