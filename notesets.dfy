/** The typical footnote and cross-reference marker sequences that the
    marker registry hands out (USFMMarkers.py:43-137), as constants. */
module NoteSets {

  const FootnoteSets: seq<seq<string>> := [
    ["fr", "fr*"],
    ["fr", "ft"],
    ["fr", "ft", "ft*"],
    ["fr", "fq"],
    ["fr", "fq", "fq*"],
    ["fr", "ft", "fq"],
    ["fr", "ft", "fq", "fq*"],
    ["fr", "fq", "ft"],
    ["fr", "fq", "ft", "ft*"],
    ["fr", "ft", "fv"],
    ["fr", "ft", "fv", "fv*"],
    ["fr", "fk", "ft"],
    ["fr", "fk", "ft", "ft*"],
    ["fr", "ft", "fq", "ft"],
    ["fr", "ft", "fq", "ft", "ft*"],
    ["fr", "fq", "ft", "fq"],
    ["fr", "fq", "ft", "fq", "fq*"],
    ["fr", "ft", "fq", "fv"],
    ["fr", "ft", "fq", "fv", "fv*"],
    ["fr", "ft", "ft", "fq"],
    ["fr", "ft", "ft", "fq", "fq*"],
    ["fr", "fk", "ft", "fq"],
    ["fr", "fk", "ft", "fq", "fq*"],
    ["fr", "ft", "fq", "ft", "fq"],
    ["fr", "ft", "fq", "ft", "fq", "fq*"],
    ["fr", "fq", "ft", "fq", "ft"],
    ["fr", "fq", "ft", "fq", "ft", "ft*"],
    ["fr", "fq", "ft", "fq", "fv"],
    ["fr", "fq", "ft", "fq", "fv", "fv*"],
    ["fr", "fq", "ft", "fq", "fq"],
    ["fr", "fq", "ft", "fq", "fq", "fq*"],
    ["fr", "ft", "fq", "fv", "fq"],
    ["fr", "ft", "fq", "fv", "fq", "fq*"],
    ["fr", "fk", "ft", "fq", "ft"],
    ["fr", "fk", "ft", "fq", "ft", "ft*"],
    ["fr", "ft", "fq", "ft", "ft"],
    ["fr", "ft", "fq", "ft", "ft", "ft*"],
    ["fr", "ft", "fv", "fv*", "fq"],
    ["fr", "ft", "fv", "fv*", "fq", "fq*"],
    ["fr", "ft", "fv", "fv*", "fv"],
    ["fr", "ft", "fv", "fv*", "fv", "fv*"],
    ["fr", "ft", "fq", "ft", "fq", "ft"],
    ["fr", "ft", "fq", "ft", "fq", "ft", "ft*"],
    ["fr", "fq", "ft", "fq", "ft", "fq"],
    ["fr", "fq", "ft", "fq", "ft", "fq", "fq*"],
    ["fr", "fq", "ft", "fq", "fq", "ft"],
    ["fr", "fq", "ft", "fq", "fq", "ft", "ft*"],
    ["fr", "fq", "ft", "fq", "fv", "fq"],
    ["fr", "fq", "ft", "fq", "fv", "fq", "fq*"],
    ["fr", "ft", "fq", "fv", "fv*", "fq"],
    ["fr", "ft", "fq", "fv", "fv*", "fq", "fq*"],
    ["fr", "ft", "fq", "fv", "fv*", "fv"],
    ["fr", "ft", "fq", "fv", "fv*", "fv", "fv*"],
    ["fr", "ft", "fq", "ft", "fv", "fv", "fq"],
    ["fr", "ft", "fq", "ft", "fv", "fv", "fq", "fq*"],
    ["fr", "fq", "ft", "fq", "ft", "fq", "ft"],
    ["fr", "fq", "ft", "fq", "ft", "fq", "ft", "ft*"],
    ["fr", "ft", "fq", "ft", "fq", "ft", "fq"],
    ["fr", "ft", "fq", "ft", "fq", "ft", "fq", "fq*"],
    ["fr", "fq", "ft", "fq", "fq", "ft", "fq"],
    ["fr", "fq", "ft", "fq", "fq", "ft", "fq", "fq*"],
    ["fr", "fq", "ft", "fq", "ft", "fq", "fv"],
    ["fr", "fq", "ft", "fq", "ft", "fq", "fv", "fv*"],
    ["fr", "ft", "fq", "fv", "fq", "fv", "fq"],
    ["fr", "ft", "fq", "fv", "fq", "fv", "fq", "fq*"],
    ["fr", "fk", "ft", "fq", "ft", "fq", "ft"],
    ["fr", "fk", "ft", "fq", "ft", "fq", "ft", "ft*"],
    ["fr", "fq", "ft", "fq", "fv", "fv*", "fv"],
    ["fr", "fq", "ft", "fq", "fv", "fv*", "fv", "fv*"],
    ["fr", "ft", "fq", "ft", "fv", "fv*", "fq"],
    ["fr", "ft", "fq", "ft", "fv", "fv*", "fq", "fq*"],
    ["fr", "fq", "ft", "fq", "fv", "fv*", "ft"],
    ["fr", "fq", "ft", "fq", "fv", "fv*", "ft", "ft*"],
    ["fr", "ft", "fq", "fq", "fv", "fv*", "ft"],
    ["fr", "ft", "fq", "fq", "fv", "fv*", "ft", "ft*"],
    ["fr", "ft", "fq", "fq", "fv", "fv*", "fq"],
    ["fr", "ft", "fq", "fq", "fv", "fv*", "fq", "fq*"],
    ["fr", "fq", "fv", "fv*", "ft", "fq", "fv"],
    ["fr", "fq", "fv", "fv*", "ft", "fq", "fv", "fv*"],
    ["fr", "ft", "fk", "ft", "fk", "ft", "fk", "ft"],
    ["fr", "ft", "fk", "ft", "fk", "ft", "fk", "ft", "ft*"],
    ["fr", "fq", "ft", "fq", "ft", "fq", "ft", "fq"],
    ["fr", "fq", "ft", "fq", "ft", "fq", "ft", "fq", "fq*"],
    ["fr", "fq", "ft", "fq", "ft", "fq", "fq", "ft"],
    ["fr", "fq", "ft", "fq", "ft", "fq", "fq", "ft", "ft*"],
    ["fr", "fq", "ft", "fq", "fq", "ft", "fq", "ft"],
    ["fr", "fq", "ft", "fq", "fq", "ft", "fq", "ft", "ft*"],
    ["fr", "fq", "ft", "fq", "fq", "ft", "fq", "fv"],
    ["fr", "fq", "ft", "fq", "fq", "ft", "fq", "fv", "fv*"],
    ["fr", "ft", "fq", "ft", "fq", "fq", "ft", "fq"],
    ["fr", "ft", "fq", "ft", "fq", "fq", "ft", "fq", "fq*"],
    ["fr", "ft", "fq", "ft", "fq", "ft", "fq", "ft"],
    ["fr", "ft", "fq", "ft", "fq", "ft", "fq", "ft", "ft*"],
    ["fr", "fq", "fv", "fq", "ft", "fq", "fv", "fq"],
    ["fr", "fq", "fv", "fq", "ft", "fq", "fv", "fq", "fq*"],
    ["fr", "ft", "fq", "ft", "fv", "fv*", "fq", "ft"],
    ["fr", "ft", "fq", "ft", "fv", "fv*", "fq", "ft", "ft*"],
    ["fr", "fq", "ft", "fq", "fv", "fv*", "ft", "fq"],
    ["fr", "fq", "ft", "fq", "fv", "fv*", "ft", "fq", "fq*"],
    ["fr", "ft", "fv", "fq", "ft", "fv", "fq", "fv", "fq"],
    ["fr", "ft", "fv", "fq", "ft", "fv", "fq", "fv", "fq", "fq*"],
    ["fr", "fq", "ft", "fq", "ft", "fq", "fq", "ft", "fq"],
    ["fr", "fq", "ft", "fq", "ft", "fq", "fq", "ft", "fq", "fq*"],
    ["fr", "fq", "ft", "fq", "fq", "ft", "fq", "ft", "fq"],
    ["fr", "fq", "ft", "fq", "fq", "ft", "fq", "ft", "fq", "fq*"],
    ["fr", "fq", "ft", "fq", "fq", "ft", "fq", "fq", "ft"],
    ["fr", "fq", "ft", "fq", "fq", "ft", "fq", "fq", "ft", "ft*"],
    ["fr", "ft", "fq", "ft", "fq", "ft", "fq", "ft", "fq"],
    ["fr", "ft", "fq", "ft", "fq", "ft", "fq", "ft", "fq", "fq*"],
    ["fr", "ft", "fv", "fv*", "fq", "ft", "fv", "fv*", "fq"],
    ["fr", "ft", "fv", "fv*", "fq", "ft", "fv", "fv*", "fq", "fq*"],
    ["fr", "fq", "ft", "fq", "fq", "ft", "fq", "fq", "ft", "fq"],
    ["fr", "fq", "ft", "fq", "fq", "ft", "fq", "fq", "ft", "fq", "fq*"],
    ["fr", "fq", "ft", "fq", "ft", "fq", "ft", "fq", "fq", "ft"],
    ["fr", "fq", "ft", "fq", "ft", "fq", "ft", "fq", "fq", "ft", "ft*"],
    ["fr", "fq", "ft", "fq", "fq", "ft", "fq", "ft", "fq", "ft"],
    ["fr", "fq", "ft", "fq", "fq", "ft", "fq", "ft", "fq", "ft", "ft*"],
    ["fr", "fq", "ft", "fq", "ft", "fq", "ft", "fq", "ft", "fq"],
    ["fr", "fq", "ft", "fq", "ft", "fq", "ft", "fq", "ft", "fq", "fq*"],
    ["fr", "ft", "fq", "ft", "fq", "ft", "fq", "ft", "fq", "ft"],
    ["fr", "ft", "fq", "ft", "fq", "ft", "fq", "ft", "fq", "ft", "ft*"],
    ["fr", "ft", "fq", "fv", "fv*", "ft", "fq", "fv", "fv*", "fv"],
    ["fr", "ft", "fq", "fv", "fv*", "ft", "fq", "fv", "fv*", "fv", "fv*"],
    ["fr", "ft", "fq", "fv", "fv*", "fv", "fv*", "fv", "fv*", "fv"],
    ["fr", "ft", "fq", "fv", "fv*", "fv", "fv*", "fv", "fv*", "fv", "fv*"],
    ["fr", "fq", "ft", "fq", "fq", "ft", "fq", "ft", "fq", "ft", "fq"],
    ["fr", "fq", "ft", "fq", "fq", "ft", "fq", "ft", "fq", "ft", "fq", "fq*"],
    ["fr", "fq", "ft", "fq", "ft", "fq", "fq", "ft", "fq", "ft", "fq"],
    ["fr", "fq", "ft", "fq", "ft", "fq", "fq", "ft", "fq", "ft", "fq", "fq*"],
    ["fr", "ft", "fq", "ft", "fv", "fv*", "fq", "ft", "fv", "fv*", "fq"],
    ["fr", "ft", "fq", "ft", "fv", "fv*", "fq", "ft", "fv", "fv*", "fq", "fq*"],
    ["fr", "fq", "ft", "fq", "ft", "fq", "ft", "fq", "ft", "fq", "ft", "fq"],
    ["fr", "fq", "ft", "fq", "ft", "fq", "ft", "fq", "ft", "fq", "ft", "fq", "fq*"],
    ["fr", "ft", "fq", "ft", "fq", "ft", "fq", "ft", "fq", "ft", "fq", "ft", "fq"],
    ["fr", "ft", "fq", "ft", "fq", "ft", "fq", "ft", "fq", "ft", "fq", "ft", "fq", "fq*"],
    ["fr", "fq", "ft", "fq", "fq", "ft", "fq", "fq", "ft", "fq", "fq", "ft", "fq"],
    ["fr", "fq", "ft", "fq", "fq", "ft", "fq", "fq", "ft", "fq", "fq", "ft", "fq", "fq*"],
    ["fr", "fq", "ft", "fq", "fv", "fv*", "fv", "fv*", "ft", "fq", "fv", "fv*", "fv"],
    ["fr", "fq", "ft", "fq", "fv", "fv*", "fv", "fv*", "ft", "fq", "fv", "fv*", "fv", "fv*"],
    ["fr", "ft", "fv", "fv*", "fq", "ft", "fv", "fv*", "fq", "ft", "fv", "fv*", "fq"],
    ["fr", "ft", "fv", "fv*", "fq", "ft", "fv", "fv*", "fq", "ft", "fv", "fv*", "fq", "fq*"],
    ["fr", "fq", "ft", "fq", "fq", "ft", "fq", "fq", "ft", "fq", "fq", "ft", "fq", "fq", "ft", "fq"],
    ["fr", "fq", "ft", "fq", "fq", "ft", "fq", "fq", "ft", "fq", "fq", "ft", "fq", "fq", "ft", "fq", "fq*"],
    ["fr", "ft", "fq", "fv", "fq", "fv", "fq", "fv", "fq", "fv", "fq", "fv", "fq", "fv", "fq", "fv", "fq", "fv", "fq"],
    ["fr", "ft", "fq", "fv", "fq", "fv", "fq", "fv", "fq", "fv", "fq", "fv", "fq", "fv", "fq", "fv", "fq", "fv", "fq", "fq*"],
    ["fr", "ft", "fq", "fv", "fv*", "fv", "fv*", "fv", "fv*", "fv", "fv*", "fv", "fv*", "fv", "fv*", "fv", "fv*", "fv"],
    ["fr", "ft", "fq", "fv", "fv*", "fv", "fv*", "fv", "fv*", "fv", "fv*", "fv", "fv*", "fv", "fv*", "fv", "fv*", "fv", "fv*"]
  ]

  const XrefSets: seq<seq<string>> := [
    ["xo", "xdc"],
    ["xo", "xdc", "xdc*"],
    ["xo", "xt"],
    ["xo", "xt", "xt*"],
    ["xo", "xt", "xk"],
    ["xo", "xt", "xdc"],
    ["xo", "xt", "xdc*"],
    ["xo", "xdc", "xt"],
    ["xo", "xdc", "xt", "xt*"],
    ["xo", "xt", "xo", "xt"],
    ["xo", "xt", "xo", "xt", "xt*"],
    ["xo", "xt", "xk", "xt"],
    ["xo", "xt", "xk", "xt", "xt*"],
    ["xo", "xt", "xdc", "xt"],
    ["xo", "xt", "xdc", "xt", "xt*"],
    ["xo", "xt", "xt", "xo", "xt"],
    ["xo", "xt", "xt", "xo", "xt", "xt*"],
    ["xo", "xt", "xo", "xt", "xdc"],
    ["xo", "xt", "xo", "xt", "xdc", "xdc*"],
    ["xo", "xt", "xo", "xt", "xo", "xt"],
    ["xo", "xt", "xo", "xt", "xo", "xt", "xt*"],
    ["xo", "xdc", "xt", "xt", "xo", "xt"],
    ["xo", "xdc", "xt", "xt", "xo", "xt", "xt*"],
    ["xo", "xt", "xdc", "xt", "xo", "xt"],
    ["xo", "xt", "xdc", "xt", "xo", "xt", "xt*"],
    ["xo", "xt", "xo", "xt", "xo", "xt", "xo", "xt"],
    ["xo", "xt", "xo", "xt", "xo", "xt", "xo", "xt", "xt*"],
    ["xo", "xt", "xdc", "xt", "xo", "xt", "xo", "xt"],
    ["xo", "xt", "xdc", "xt", "xo", "xt", "xo", "xt", "xt*"],
    ["xo", "xt", "xo", "xt", "xo", "xt", "xo", "xt", "xo", "xt"],
    ["xo", "xt", "xo", "xt", "xo", "xt", "xo", "xt", "xo", "xt", "xt*"],
    ["xo", "xt", "xo", "xt", "xo", "xt", "xo", "xt", "xo", "xt", "xo", "xt"],
    ["xo", "xt", "xo", "xt", "xo", "xt", "xo", "xt", "xo", "xt", "xo", "xt", "xt*"]
  ]
}
