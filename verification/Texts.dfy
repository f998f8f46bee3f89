// The string operations the modelled code borrows from Python: str.find, str.join, str.lower.
module Texts {

  predicate OccursAt(text: string, pattern: string, i: nat) {
    i + |pattern| <= |text| && text[i..i + |pattern|] == pattern
  }

  // `pattern in text`
  predicate Contains(text: string, pattern: string) {
    exists i: nat :: i <= |text| && OccursAt(text, pattern, i)
  }

  // text.find(pattern, from), with -1 for "not found".
  function Find(text: string, pattern: string, from: nat): (r: int)
    requires from <= |text|
    ensures r == -1 || (from <= r <= |text| && OccursAt(text, pattern, r))
    ensures forall i: nat :: from <= i && OccursAt(text, pattern, i) ==> r != -1 && r <= i
    decreases |text| - from
  {
    if OccursAt(text, pattern, from) then from
    else if from == |text| then -1
    else Find(text, pattern, from + 1)
  }

  // An occurrence is not disturbed by more text arriving after it.
  lemma OccursAtAppend(text: string, more: string, pattern: string, i: nat)
    ensures OccursAt(text, pattern, i) ==> OccursAt(text + more, pattern, i)
    ensures i + |pattern| <= |text| ==> (OccursAt(text + more, pattern, i) <==> OccursAt(text, pattern, i))
  {
    if i + |pattern| <= |text| {
      assert (text + more)[i..i + |pattern|] == text[i..i + |pattern|];
    }
  }

  // A first occurrence, once found, stays the first occurrence.
  lemma FindAppend(text: string, more: string, pattern: string, from: nat)
    requires from <= |text| && Find(text, pattern, from) != -1
    ensures Find(text + more, pattern, from) == Find(text, pattern, from)
  {
    var r := Find(text, pattern, from);
    forall i: nat | i <= r ensures OccursAt(text + more, pattern, i) <==> OccursAt(text, pattern, i) {
      OccursAtAppend(text, more, pattern, i);
    }
  }

  lemma FindUnique(text: string, pattern: string, from: nat, at: nat)
    requires from <= at <= |text| && OccursAt(text, pattern, at)
    requires forall i: nat :: from <= i < at ==> !OccursAt(text, pattern, i)
    ensures Find(text, pattern, from) == at
  {
  }

  // " ".join(parts)
  function Spaced(parts: seq<string>): string {
    if parts == [] then "" else if |parts| == 1 then parts[0] else parts[0] + " " + Spaced(parts[1..])
  }

  // str.lower(), on ASCII letters.
  function Lower(c: char): char {
    if 'A' <= c <= 'Z' then (c as int - 'A' as int + 'a' as int) as char else c
  }

  function LowerText(t: string): string { seq(|t|, i requires 0 <= i < |t| => Lower(t[i])) }
}
