/** `FormatterConfig`: the values both revisions read. Python lists used only
    for membership tests are sets here. */
module Settings {

  datatype Config = Config(
    extensions: set<string>,          // video extensions, lower-case, without the dot
    extensionsToDelete: set<string>,  // newer revision only
    tags: set<string>,                // words that end a title
    watchDirectory: string,
    showDestination: string,
    movieDestination: string,
    miscDestination: string,
    nonVideoDestination: string)

  const VideoExtensions: set<string> := {
    "mkv", "mp4", "mov", "avi", "wmv", "flv", "webm",
    "vob", "ogv", "ogg", "drc", "mng", "mts", "m2ts",
    "ts", "3gp", "m4v", "mpg", "mpeg", "f4v", "f4p",
    "f4a", "f4b"
  }

  const DeletableExtensions: set<string> := { "txt", "exe", "parts" }

  const Tags: set<string> := {
    "av1", "x264", "hdtv", "bluray", "bdrip", "dvdrip", "brrip",
    "4k", "2160", "2160p", "1080", "1080p", "720", "720p",
    "webrip", "amzn", "h264", "hevc", "h", "264", "265", "h265",
    "proper", "remastered", "theatrical", "rarbg"
  }

  /** The values a freshly constructed configuration holds. */
  const Default: Config := Config(
    VideoExtensions, DeletableExtensions, Tags,
    "/path/to/watch", "/path/to/destination", "/path/to/destination",
    "/path/to/destination", "/path/to/destination")

  /** The seconds a tracked file must stay unmodified before it is acted on. */
  const DefaultDelayBeforeMoving: int := 60
}
