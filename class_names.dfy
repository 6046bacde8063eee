/**
 * The name transform of `CFS.load` (lib/index.js:129): the class name with
 * its first `_` replaced by `/`, then lower-cased. `String.prototype.replace`
 * with a string pattern replaces one occurrence only, so `My_Class_Name`
 * becomes `my/class_name`, not `my/class/name`.
 */
module ClassNames {

  /** `s.replace(from, to)` for one-character string arguments. */
  function ReplaceFirst(s: string, from: char, to: char): (r: string)
    ensures |r| == |s|
  {
    if s == [] then []
    else if s[0] == from then [to] + s[1..]
    else [s[0]] + ReplaceFirst(s[1..], from, to)
  }

  /** A character changes only if it is an occurrence of `from`, which
      becomes `to`; the first occurrence does, and nothing after it changes. */
  lemma {:induction false} ReplaceFirstChanges(s: string, from: char, to: char)
    ensures var r := ReplaceFirst(s, from, to);
      && (forall i :: 0 <= i < |s| && r[i] != s[i] ==> s[i] == from && r[i] == to)
      && (forall i, j :: 0 <= j < i < |s| && s[j] == from ==> r[i] == s[i])
      && (forall i :: 0 <= i < |s| && s[i] == from && (forall j :: 0 <= j < i ==> s[j] != from) ==> r[i] == to)
  {
    if s != [] && s[0] != from {
      ReplaceFirstChanges(s[1..], from, to);
      var r, r' := ReplaceFirst(s, from, to), ReplaceFirst(s[1..], from, to);
      assert forall i :: 0 < i < |s| ==> r[i] == r'[i - 1] && s[i] == s[1..][i - 1];
    }
  }

  /** Without an occurrence nothing is replaced. */
  lemma {:induction false} ReplaceFirstAbsent(s: string, from: char, to: char)
    requires from !in s
    ensures ReplaceFirst(s, from, to) == s
  {
    if s != [] {
      assert s == [s[0]] + s[1..];
      ReplaceFirstAbsent(s[1..], from, to);
    }
  }

  /** Only the first occurrence is replaced; everything after it, later
      occurrences included, is kept. */
  lemma ReplaceFirstAt(s: string, from: char, to: char, i: nat)
    requires i < |s| && s[i] == from && from !in s[..i]
    ensures ReplaceFirst(s, from, to) == s[..i] + [to] + s[i + 1..]
  {
    ReplaceFirstChanges(s, from, to);
    var r, t := ReplaceFirst(s, from, to), s[..i] + [to] + s[i + 1..];
    forall k | 0 <= k < |s| ensures r[k] == t[k] {
      if k < i {
        assert s[..i][k] == s[k];
      }
    }
  }

  /** ASCII `toLowerCase` of one character. */
  function LowerChar(c: char): char {
    if 'A' <= c <= 'Z' then (c as int - 'A' as int + 'a' as int) as char else c
  }

  /** `toLowerCase` restricted to ASCII: upper-case letters become lower
      case, every other character is kept, and no upper-case letter is left. */
  function Lower(s: string): (r: string)
    ensures |r| == |s|
    ensures forall i :: 0 <= i < |s| ==>
      && !('A' <= r[i] <= 'Z')
      && (if 'A' <= s[i] <= 'Z' then r[i] as int == s[i] as int + 32 else r[i] == s[i])
  {
    seq(|s|, i requires 0 <= i < |s| => LowerChar(s[i]))
  }

  /** The file name `load` looks up under `classes`. */
  function ClassFile(className: string): (f: string)
    ensures |f| == |className|
    ensures forall i :: 0 <= i < |f| ==> !('A' <= f[i] <= 'Z')
  {
    Lower(ReplaceFirst(className, '_', '/'))
  }

  /** The first `_` becomes `/`, every later `_` stays, and every other
      character is lower-cased in place; without `_` the name is only
      lower-cased. */
  lemma ClassFileSpec(className: string)
    ensures |ClassFile(className)| == |className|
    ensures '_' !in className ==> ClassFile(className) == Lower(className)
    ensures forall i :: 0 <= i < |className| && className[i] == '_' && '_' !in className[..i] ==>
      && ClassFile(className)[i] == '/'
      && forall j :: 0 <= j < |className| && j != i ==> ClassFile(className)[j] == LowerChar(className[j])
  {
    if '_' !in className {
      ReplaceFirstAbsent(className, '_', '/');
    }
    forall i | 0 <= i < |className| && className[i] == '_' && '_' !in className[..i]
      ensures ClassFile(className)[i] == '/'
      ensures forall j :: 0 <= j < |className| && j != i ==> ClassFile(className)[j] == LowerChar(className[j])
    {
      ReplaceFirstAt(className, '_', '/', i);
      var replaced := className[..i] + ['/'] + className[i + 1..];
      assert forall j :: 0 <= j < |className| && j != i ==> replaced[j] == className[j];
    }
  }

  /** `My_Class_Name` is looked up as `my/class_name`. */
  lemma SecondUnderscoreKept()
    ensures ClassFile("My_Class_Name") == "my/class_name"
  {
    ReplaceExample();
    LowerExample();
  }

  lemma ReplaceExample()
    ensures ReplaceFirst("My_Class_Name", '_', '/') == "My/Class_Name"
  {
    assert "My_Class_Name" == "My" + ['_'] + "Class_Name";
    ReplaceFirstAfter("My", "Class_Name", '_', '/');
    assert "My" + ['/'] + "Class_Name" == "My/Class_Name";
  }

  lemma {:induction false} ReplaceFirstAfter(prefix: string, rest: string, from: char, to: char)
    requires from !in prefix
    ensures ReplaceFirst(prefix + [from] + rest, from, to) == prefix + [to] + rest
  {
    if prefix != [] {
      assert (prefix + [from] + rest)[1..] == prefix[1..] + [from] + rest;
      ReplaceFirstAfter(prefix[1..], rest, from, to);
    }
  }

  lemma LowerExample()
    ensures Lower("My/Class_Name") == "my/class_name"
  {
    var r := Lower("My/Class_Name");
    assert r[0] == 'm';
    assert r[1] == 'y';
    assert r[2] == '/';
    assert r[3] == 'c';
    assert r[4] == 'l';
    assert r[5] == 'a';
    assert r[6] == 's';
    assert r[7] == 's';
    assert r[8] == '_';
    assert r[9] == 'n';
    assert r[10] == 'a';
    assert r[11] == 'm';
    assert r[12] == 'e';
  }

}
