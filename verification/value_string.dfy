/** The framework's `value_string` tables: arrays of (code, label) pairs
    searched front to back, as done by `match_strval`, `try_val_to_str`
    and `val_to_str`. */
module ValueStrings {
  import opened Optional
  import opened Bytes
  import Printf

  datatype ValueString = ValueString(code: int, text: string)

  /** `match_strval` / `try_val_to_str`: the label of the first entry whose
      code is `v`, or nothing when no entry has that code. */
  function MatchStrval(v: int, vals: seq<ValueString>): Option<string>
  {
    if vals == [] then None
    else if vals[0].code == v then Some(vals[0].text)
    else MatchStrval(v, vals[1..])
  }

  /** The lookup finds nothing exactly when no entry has the code, and
      otherwise returns the label of the first entry that has it. */
  lemma {:induction false} MatchStrvalFirst(v: int, vals: seq<ValueString>)
    ensures MatchStrval(v, vals).None? <==> forall i :: 0 <= i < |vals| ==> vals[i].code != v
    ensures MatchStrval(v, vals).Some? ==>
      exists i :: 0 <= i < |vals| && vals[i] == ValueString(v, MatchStrval(v, vals).value)
                  && forall j :: 0 <= j < i ==> vals[j].code != v
  {
    if vals != [] && vals[0].code != v {
      MatchStrvalFirst(v, vals[1..]);
      var r := MatchStrval(v, vals[1..]);
      if r.Some? {
        var i :| 0 <= i < |vals[1..]| && vals[1..][i] == ValueString(v, r.value)
                 && forall j :: 0 <= j < i ==> vals[1..][j].code != v;
        assert vals[i + 1] == ValueString(v, r.value);
      } else {
        assert forall i :: 1 <= i < |vals| ==> vals[i].code == vals[1..][i - 1].code;
      }
    }
  }

  /** The text `"Unknown (0x%04x)"` that `val_to_str` prints for a 16-bit
      code missing from its table. */
  function UnknownHex04(v: int): (s: string)
    requires 0 <= v < U16_LIMIT
    ensures |s| == 16
    ensures s[..11] == "Unknown (0x" && s[15..] == ")"
    ensures Printf.ParseHex(s[11..15]) == v
  {
    "Unknown (0x" + Printf.Hex04(v) + ")"
  }

  /** `val_to_str(v, vals, "Unknown (0x%04x)")`. */
  function ValToStr(v: int, vals: seq<ValueString>): (s: string)
    requires 0 <= v < U16_LIMIT
    ensures MatchStrval(v, vals).Some? ==> s == MatchStrval(v, vals).value
    ensures MatchStrval(v, vals).None? ==> s == UnknownHex04(v)
  {
    match MatchStrval(v, vals)
    case Some(l) => l
    case None => UnknownHex04(v)
  }
}
