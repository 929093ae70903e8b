/** The story configuration of the landing page: the three story variants,
    the list the page ships with, and the progress each timer tick adds. */
module Stories {

  datatype Option<+T> = None | Some(value: T)

  /** One slide of the carousel. Every variant carries its display time in
      milliseconds; `Video` is declared but the shipped list never uses it. */
  datatype Story =
    | YouTube(id: string, videoId: string, duration: int, title: string)
    | Video(id: string, content: Option<string>, duration: int, title: string)
    | Social(id: string, platform: string, username: string, url: string,
             color: string, icon: string, duration: int)

  /** A story list the controller can run: at least one story, and every
      story lasts a positive time, so that the increment is defined. */
  predicate WellFormed(stories: seq<Story>)
  {
    |stories| > 0 && forall i :: 0 <= i < |stories| ==> stories[i].duration > 0
  }

  /** Percentage points added per tick to a story that lasts `duration` ms:
      100 / (duration / 50). Adding it once per tick for `duration` ms of
      ticks accumulates exactly 100. */
  function Increment(duration: int): (r: real)
    requires duration > 0
    ensures r > 0.0
    ensures (duration as real / 50.0) * r == 100.0
  {
    100.0 / (duration as real / 50.0)
  }

  /** The list the page ships with: the welcome video, then five social cards. */
  function Shipped(): (r: seq<Story>)
    ensures WellFormed(r) && |r| == 6
    ensures r[0].YouTube? && r[0].duration == 6000
    ensures forall i :: 1 <= i < |r| ==> r[i].Social? && r[i].duration == 5000
    ensures forall i, j :: 0 <= i < j < |r| ==> r[i].id != r[j].id
  {
    [ YouTube("video", "jpN0G5AmH9Q", 6000, "¡Bienvenido!"),
      Social("tiktok", "TikTok", "@puertajada", "https://tiktok.com/@puertajada",
             "from-black to-gray-800", "TikTok", 5000),
      Social("youtube", "YouTube", "Tu Canal", "https://youtube.com/@puertajada",
             "from-red-600 to-red-800", "YouTube", 5000),
      Social("instagram", "Instagram", "@puertajada", "https://instagram.com/puertajada",
             "from-purple-600 via-pink-600 to-orange-500", "Instagram", 5000),
      Social("twitter", "Twitter", "@puertajada", "https://twitter.com/puertajada",
             "from-gray-900 to-blue-600", "Twitter", 5000),
      Social("facebook", "Facebook", "Tu Página", "https://facebook.com/puertajada",
             "from-blue-600 to-blue-800", "Facebook", 5000) ]
  }
}
