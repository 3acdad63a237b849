/** The spoke file (internal/mesh/spokes.go): one normalized name per line. */
module Spokes {
  import opened Wrappers
  import opened Rosters
  import Names

  /** `strings.Split(text, "\n")` */
  function Lines(text: string): (r: seq<string>)
    ensures |r| > 0
  {
    if text == "" then [""]
    else
      var rest := Lines(text[1..]);
      if text[0] == '\n' then [""] + rest else [[text[0]] + rest[0]] + rest[1..]
  }

  /** The names in a file's text: every line, normalized, that is not then empty. */
  function NamesIn(text: string): set<string> {
    set ln | ln in Lines(text) && Names.Normalize(Names.TrimSpace(ln)) != "" :: Names.Normalize(Names.TrimSpace(ln))
  }

  /** What SaveSpokes writes: the names joined by newlines, with a final one. */
  function Written(names: seq<string>): string {
    if names == [] then "" else names[0] + "\n" + Written(names[1..])
  }

  /** A name the file can hold: normalized, not empty, all on one line. */
  ghost predicate Storable(name: string) {
    name != "" && Names.Normalize(name) == name && '\n' !in name
  }

  lemma {:induction false} LinesOfLine(line: string, text: string)
    requires '\n' !in line
    ensures Lines(line + "\n" + text) == [line] + Lines(text)
  {
    var all := line + "\n" + text;
    if line == "" {
      assert all[1..] == text;
    } else {
      assert all[1..] == line[1..] + "\n" + text;
      assert all[0] == line[0] && line == [line[0]] + line[1..];
      LinesOfLine(line[1..], text);
    }
  }

  lemma {:induction false} LinesHaveNoNewline(text: string)
    ensures forall ln :: ln in Lines(text) ==> '\n' !in ln
  {
    if text != "" {
      LinesHaveNoNewline(text[1..]);
    }
  }

  lemma {:induction false} LinesOfWritten(names: seq<string>, last: string)
    requires (forall n :: n in names ==> '\n' !in n) && '\n' !in last
    ensures Lines(Written(names) + last) == names + [last]
  {
    if names == [] {
      assert Written(names) + last == last;
      OneLine(last);
    } else {
      assert Written(names) + last == names[0] + "\n" + (Written(names[1..]) + last);
      LinesOfLine(names[0], Written(names[1..]) + last);
      LinesOfWritten(names[1..], last);
    }
  }

  lemma {:induction false} OneLine(line: string)
    requires '\n' !in line
    ensures Lines(line) == [line]
  {
    if line != "" {
      OneLine(line[1..]);
      assert line == [line[0]] + line[1..];
    }
  }

  lemma NormalizeTrimmed(s: string)
    ensures Names.Normalize(Names.TrimSpace(s)) == Names.Normalize(s)
  {
    Names.TrimLeftTrims(s);
    Names.TrimRightTrims(Names.TrimLeft(s));
    var t := Names.TrimSpace(s);
    assert Names.TrimLeft(t) == t && Names.TrimRight(t) == t;
  }

  lemma TrimSpaceIsWithin(s: string, c: char)
    ensures c in Names.TrimSpace(s) ==> c in s
  {
    Names.TrimLeftTrims(s);
    Names.TrimRightTrims(Names.TrimLeft(s));
  }

  lemma NormalizeKeepsOffNewline(s: string)
    requires '\n' !in s
    ensures '\n' !in Names.Normalize(s)
  {
    TrimSpaceIsWithin(s, '\n');
    hide Names.TrimSpace;
    var t := Names.TrimSpace(s);
    forall i | 0 <= i < |t| ensures Names.ToLower(t)[i] != '\n' {
      assert t[i] in t;
    }
  }

  /** Whatever is in the file, only storable names are loaded from it. */
  lemma LoadedAreStorable(text: string)
    ensures forall n :: n in NamesIn(text) ==> Storable(n)
  {
    LinesHaveNoNewline(text);
    forall n | n in NamesIn(text) ensures Storable(n) {
      var ln :| ln in Lines(text) && n == Names.Normalize(Names.TrimSpace(ln));
      NormalizeTrimmed(ln);
      Names.NormalizeIdempotent(ln);
      NormalizeKeepsOffNewline(ln);
    }
  }

  /** From a file of any lines, the last ended or not, each gives its normal form, and a blank one nothing. */
  lemma LoadedFromLines(lines: seq<string>, last: string)
    requires (forall ln :: ln in lines ==> '\n' !in ln) && '\n' !in last
    ensures forall n :: n in NamesIn(Written(lines) + last) <==> n != "" && exists ln :: ln in lines + [last] && n == Names.Normalize(ln)
  {
    LinesOfWritten(lines, last);
    forall ln: string ensures Names.Normalize(Names.TrimSpace(ln)) == Names.Normalize(ln) { NormalizeTrimmed(ln); }
    hide Names.Normalize, Names.TrimSpace, Written, Lines;
  }

  /** Loading what was saved gives the same set exactly when every name in it is storable. */
  lemma SaveLoadRoundTrip(names: seq<string>)
    ensures NamesIn(Written(names)) == (set n | n in names) <==> forall n :: n in names ==> Storable(n)
  {
    if forall n :: n in names ==> Storable(n) {
      LinesOfWritten(names, "");
      assert Written(names) + "" == Written(names);
      var lines := names + [""];
      forall ln | ln in lines ensures Names.Normalize(Names.TrimSpace(ln)) == ln {
        NormalizeTrimmed(ln);
        if ln == "" { assert Names.TrimSpace(ln) == ""; }
      }
      assert forall n :: n in names ==> n in lines;
    } else {
      LoadedAreStorable(Written(names));
      var bad :| bad in names && !Storable(bad);
      assert bad in (set n | n in names);
    }
  }

  /** The file; a path of "" is modelled by having no file object at all. */
  class SpokeFile {
    var text: Option<string>

    constructor ()
      ensures text.None?
    {
      text := None;
    }

    ghost function Stored(): set<string>
      reads this
    {
      if text.None? then {} else NamesIn(text.value)
    }

    /** A missing file is an empty set; `readable` says whether the read succeeds. */
    method Load(readable: bool) returns (r: Option<set<string>>)
      ensures r.Some? <==> text.None? || readable
      ensures r.Some? ==> r.value == Stored() && forall n :: n in r.value ==> Storable(n)
    {
      if text.None? { return Some({}); }
      if !readable { return None; }
      LoadedAreStorable(text.value);
      var lines := Lines(text.value);
      var out: set<string> := {};
      for i := 0 to |lines|
        invariant out == set ln | ln in lines[..i] && Names.Normalize(Names.TrimSpace(ln)) != "" :: Names.Normalize(Names.TrimSpace(ln))
      {
        var n := Names.Normalize(Names.TrimSpace(lines[i]));
        assert lines[..i + 1] == lines[..i] + [lines[i]];
        if n != "" { out := out + {n}; }
      }
      assert lines[..|lines|] == lines;
      r := Some(out);
    }

    /** Replaces the file whole, or leaves it untouched when writing fails. */
    method Save(spokes: set<string>, writable: bool) returns (ok: bool)
      modifies this
      ensures ok == writable
      ensures !ok ==> text == old(text)
      ensures ok ==> (Stored() == spokes <==> forall n :: n in spokes ==> Storable(n))
    {
      if !writable { return false; }
      var names := SortedNames(spokes);
      text := Some(Join(names));
      WrittenIsJoined(names);
      SaveLoadRoundTrip(names);
      assert (set n | n in names) == spokes;
      ok := true;
    }

    method AddSpoke(name: string, readable: bool, writable: bool) returns (ok: bool)
      modifies this
      ensures var n := Names.Normalize(name);
              ok <==> n == "" || ((old(text).None? || readable) && (n in old(Stored()) || writable))
      ensures ok && '\n' !in Names.Normalize(name) ==>
                Stored() == old(Stored()) + if Names.Normalize(name) == "" then {} else {Names.Normalize(name)}
      ensures ok && '\n' in Names.Normalize(name) ==> Stored() != old(Stored()) + {Names.Normalize(name)}
      ensures !ok ==> text == old(text)
    {
      var n := Names.Normalize(name);
      if n == "" { return true; }
      var loaded := Load(readable);
      if loaded.None? { return false; }
      if n in loaded.value { return true; }
      Names.NormalizeIdempotent(name);
      ok := Save(loaded.value + {n}, writable);
      assert n in loaded.value + {n};
    }

    method RemoveSpoke(name: string, readable: bool, writable: bool) returns (ok: bool)
      modifies this
      ensures ok <==> (old(text).None? || readable) && (Names.Normalize(name) !in old(Stored()) || writable)
      ensures ok ==> Stored() == old(Stored()) - {Names.Normalize(name)}
      ensures !ok ==> text == old(text)
    {
      var n := Names.Normalize(name);
      var loaded := Load(readable);
      if loaded.None? { return false; }
      if n !in loaded.value { return true; }
      ok := Save(loaded.value - {n}, writable);
    }
  }

  /** `strings.Join(names, "\n")`, then a newline unless the list is empty. */
  function Joined(names: seq<string>): string {
    if names == [] then "" else if |names| == 1 then names[0] else names[0] + "\n" + Joined(names[1..])
  }

  function Join(names: seq<string>): string {
    Joined(names) + if |names| > 0 then "\n" else ""
  }

  lemma {:induction false} WrittenIsJoined(names: seq<string>)
    ensures Join(names) == Written(names)
  {
    if |names| == 1 {
      assert names[1..] == [];
    } else if |names| > 1 {
      WrittenIsJoined(names[1..]);
    }
  }
}
