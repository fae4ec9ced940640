/** Opening a media file at a timestamp (sttfast/media.py).

    `open_at` clamps the start time at zero, picks a player from the
    configured name and what is installed, and builds the player's command
    line; the command is then launched, which is left out. Whether a program
    is installed (`shutil.which`) is the parameter `installed`, and
    `str(float)` is the parameter `show`. */
module Media {
  datatype Player = Vlc | Mpv | Ffplay

  function ProgramName(p: Player): string {
    match p
    case Vlc => "vlc"
    case Mpv => "mpv"
    case Ffplay => "ffplay"
  }

  /** `max(0.0, start_sec)`. */
  function ClampStart(startSec: real): (start: real)
    ensures start >= 0.0 && start >= startSec
    ensures start == startSec || start == 0.0
  {
    if startSec >= 0.0 then startSec else 0.0
  }

  /** The player decision table: a named player is used as named, "auto"
      takes the first of vlc and mpv that is installed, and anything else
      falls back to ffplay. */
  function SelectPlayer(player: string, installed: string -> bool): (p: Player)
    ensures player == "vlc" ==> p == Vlc
    ensures player == "mpv" ==> p == Mpv
    ensures player == "auto" ==>
      && (p == Vlc <==> installed("vlc"))
      && (p == Mpv <==> !installed("vlc") && installed("mpv"))
      && (p == Ffplay <==> !installed("vlc") && !installed("mpv"))
    ensures player != "vlc" && player != "mpv" && player != "auto" ==> p == Ffplay
  {
    if player == "vlc" || (player == "auto" && installed("vlc")) then Vlc
    else if player == "mpv" || (player == "auto" && installed("mpv")) then Mpv
    else Ffplay
  }

  /** The command line `open_at` launches. */
  function OpenAtCommand(player: string, file: string, startSec: real,
                         installed: string -> bool, show: real -> string): (cmd: seq<string>)
    ensures |cmd| >= 3
    ensures cmd[0] == ProgramName(SelectPlayer(player, installed))
    ensures cmd[|cmd| - 1] == file
  {
    var start := ClampStart(startSec);
    match SelectPlayer(player, installed)
    case Vlc => ["vlc", "--start-time=" + show(start), file]
    case Mpv => ["mpv", "--start=" + show(start), file]
    case Ffplay => ["ffplay", "-ss", show(start), "-autoexit", file]
  }

  /** The start handed to the player is the clamped time, whatever the
      player: a negative request starts at zero, any other starts as asked. */
  lemma OpenAtStart(player: string, file: string, startSec: real, installed: string -> bool, show: real -> string)
    ensures var cmd := OpenAtCommand(player, file, startSec, installed, show);
      var start := if startSec < 0.0 then 0.0 else startSec;
      match SelectPlayer(player, installed)
      case Vlc => cmd[1] == "--start-time=" + show(start) && |cmd| == 3
      case Mpv => cmd[1] == "--start=" + show(start) && |cmd| == 3
      case Ffplay => cmd[1] == "-ss" && cmd[2] == show(start) && cmd[3] == "-autoexit" && |cmd| == 5
  {
  }

  /** Under "auto" an installed player is preferred over the fallback: the
      command runs vlc or mpv only when that program is installed. */
  lemma AutoUsesInstalled(file: string, startSec: real, installed: string -> bool, show: real -> string)
    ensures var cmd := OpenAtCommand("auto", file, startSec, installed, show);
      (cmd[0] == "vlc" || cmd[0] == "mpv") ==> installed(cmd[0])
  {
  }
}
