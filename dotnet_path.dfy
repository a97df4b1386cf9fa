/** `System.IO.Path.Combine(string, string)` as .NET Core defines it, for
    the two separator conventions the host can run under. */
module DotNetPath {

  /** Which operating system's path rules apply. */
  datatype PathStyle = WindowsPaths | UnixPaths

  /** `Path.DirectorySeparatorChar`. */
  function DirectorySeparator(style: PathStyle): char {
    match style
    case WindowsPaths => '\\'
    case UnixPaths => '/'
  }

  /** On Windows both '\' and '/' separate directories; on Unix only '/'. */
  predicate IsDirectorySeparator(style: PathStyle, c: char) {
    c == '/' || (style == WindowsPaths && c == '\\')
  }

  predicate IsAsciiLetter(c: char) {
    'A' <= c <= 'Z' || 'a' <= c <= 'z'
  }

  /** `Path.IsPathRooted`: a leading separator, or on Windows a drive
      letter followed by ':'. */
  predicate IsPathRooted(style: PathStyle, p: string) {
    || (|p| >= 1 && IsDirectorySeparator(style, p[0]))
    || (style == WindowsPaths && |p| >= 2 && IsAsciiLetter(p[0]) && p[1] == ':')
  }

  /** The text that `Path.Combine` puts in front of a relative second part:
      nothing for an empty directory, the directory itself when it already
      ends in a separator, and the directory plus a separator otherwise. */
  function DirectoryPrefix(style: PathStyle, directory: string): (r: string)
    ensures directory <= r && |r| <= |directory| + 1
    ensures r == [] <==> directory == []
    ensures r != [] ==> IsDirectorySeparator(style, r[|r| - 1])
    ensures directory != [] && IsDirectorySeparator(style, directory[|directory| - 1]) ==> r == directory
    ensures directory != [] && !IsDirectorySeparator(style, directory[|directory| - 1]) ==>
      r == directory + [DirectorySeparator(style)]
  {
    if directory == [] then []
    else if IsDirectorySeparator(style, directory[|directory| - 1]) then directory
    else directory + [DirectorySeparator(style)]
  }

  /** `Path.Combine(first, second)`: an empty part yields the other, a
      rooted second part wins, otherwise the two are joined by exactly one
      separator. */
  function Combine(style: PathStyle, first: string, second: string): (r: string)
    ensures second != [] && !IsPathRooted(style, second) ==> r == DirectoryPrefix(style, first) + second
    ensures IsPathRooted(style, second) ==> r == second
    ensures second == [] ==> r == first
  {
    if first == [] then second
    else if second == [] then first
    else if IsPathRooted(style, second) then second
    else if IsDirectorySeparator(style, first[|first| - 1]) || IsDirectorySeparator(style, second[0]) then first + second
    else first + [DirectorySeparator(style)] + second
  }
}
