/** Identifier handling of the metadata mapper: normalisation of ids to full URIs, truncation of
    the suffixes the diagram converter appends, and the three candidate forms tried for a node. */
module Identifiers {
  import opened Strings

  /** Base URI of Pathway Commons local names. */
  const Pc2Base := "http://pathwaycommons.org/pc2/"
  /** Base URI of the identifiers.org registry. */
  const IdentifiersBase := "http://identifiers.org/"
  /** Prefix of the local names of unification cross-references. */
  const UnificationTag := "UnificationXref_"

  /** An id is treated as a full URI when it mentions `http` anywhere; otherwise it is a local
      Pathway Commons name and gets the PC2 base in front. */
  function Normalize(id: string): (r: string)
    ensures Contains(r, "http")
    ensures r == id <==> Contains(id, "http")
    ensures r != id ==> r == Pc2Base + id
  {
    if Contains(id, "http") then id
    else
      ContainsPrefix(Pc2Base, "http", id);
      Pc2Base + id
  }

  /** Normalising an already normalised id changes nothing. */
  lemma NormalizeIdempotent(id: string)
    ensures Normalize(Normalize(id)) == Normalize(id)
  {
  }

  /** How string concatenation spells JavaScript's `undefined`. */
  const Undefined := "undefined"

  /** A JavaScript array element read into a string: past the end of the array it is the value
      `undefined`, which string concatenation spells out. */
  function SegmentText(parts: seq<string>, i: nat): string {
    if i < |parts| then parts[i] else Undefined
  }

  /** The first `n` entries of `parts` (as `SegmentText` reads them), each but the last followed
      by an underscore. */
  function JoinLeading(parts: seq<string>, n: nat): string {
    if n == 0 then []
    else if n == 1 then SegmentText(parts, 0)
    else JoinLeading(parts, n - 1) + "_" + SegmentText(parts, n - 1)
  }

  /** An entry read from pieces free of `_` has no underscore, `undefined` included. */
  lemma SegmentTextAvoidsUnderscore(parts: seq<string>, i: nat)
    requires forall k :: 0 <= k < |parts| ==> '_' !in parts[k]
    ensures multiset(SegmentText(parts, i))['_'] == 0
  {
    if i >= |parts| {
      assert forall k :: 0 <= k < |Undefined| ==> Undefined[k] != '_';
    }
    assert '_' !in SegmentText(parts, i);
  }

  /** Reading the first `n` entries of a list of pieces free of `_` gives one underscore fewer
      than `n`: one between each two entries, none inside them, `undefined` included. */
  lemma {:induction false} JoinLeadingUnderscores(parts: seq<string>, n: nat)
    requires forall k :: 0 <= k < |parts| ==> '_' !in parts[k]
    ensures n >= 1 ==> multiset(JoinLeading(parts, n))['_'] == n - 1
  {
    if n >= 1 {
      var last := SegmentText(parts, n - 1);
      SegmentTextAvoidsUnderscore(parts, n - 1);
      if n > 1 {
        var lead := JoinLeading(parts, n - 1);
        JoinLeadingUnderscores(parts, n - 1);
        assert JoinLeading(parts, n) == lead + "_" + last;
        assert multiset(lead + "_" + last) == multiset(lead) + multiset("_") + multiset(last);
      }
    }
  }

  /** Within the list, reading the first `n` entries is joining the first `n` parts. */
  lemma {:induction false} JoinLeadingWithin(parts: seq<string>, n: nat)
    ensures 1 <= n <= |parts| ==> JoinLeading(parts, n) == Join(parts[..n], "_")
  {
    if 1 <= n <= |parts| {
      if n == 1 {
        assert parts[..1] == [parts[0]];
      } else {
        JoinLeadingWithin(parts, n - 1);
        assert parts[..n] == parts[..n - 1] + [parts[n - 1]];
        JoinSnoc(parts[..n - 1], parts[n - 1], "_");
      }
    }
  }

  /** The word cut down to its first `n` underscore-separated segments. Segments the word does not
      have read as `undefined`. The result has `n - 1` underscores; while `n` is at most the
      number of segments it is a prefix of the word, and with all segments kept it is the word. */
  function RemoveAfterUnderscore(word: string, n: nat): (r: string)
    ensures n >= 1 ==> multiset(r)['_'] == n - 1
    ensures 1 <= n <= |Split(word, "_")| ==> r <= word
    ensures n == |Split(word, "_")| ==> r == word
  {
    var parts := Split(word, "_");
    SplitPartsAvoidSeparator(word, '_');
    JoinLeadingUnderscores(parts, n);
    JoinLeadingWithin(parts, n);
    SplitJoinRoundTrip(word, "_");
    assert n == |parts| ==> parts[..n] == parts;
    assert 1 <= n <= |parts| ==> Join(parts[..n], "_") <= word by {
      if 1 <= n <= |parts| {
        JoinPrefix(parts, n, "_");
      }
    }
    JoinLeading(parts, n)
  }

  /** For a word with at least one underscore, truncation to two segments keeps the first two
      segments with the underscore between them: a prefix of the word with exactly one underscore,
      and the word itself when it had exactly one. */
  lemma RemoveAfterUnderscoreTwo(word: string)
    requires '_' in word
    ensures |Split(word, "_")| >= 2
    ensures RemoveAfterUnderscore(word, 2) == Split(word, "_")[0] + "_" + Split(word, "_")[1]
    ensures RemoveAfterUnderscore(word, 2) <= word
    ensures multiset(RemoveAfterUnderscore(word, 2))['_'] == 1
    ensures multiset(word)['_'] == 1 <==> RemoveAfterUnderscore(word, 2) == word
  {
    FirstTwoSegments(word);
    var parts := Split(word, "_");
    if multiset(word)['_'] == 1 {
      assert parts[1..] == [parts[1]];
    }
  }

  /** The split of a word with an underscore, read back: the first segment, an underscore, and
      the remaining segments joined, with one more segment than underscores. */
  lemma FirstTwoSegments(word: string)
    requires '_' in word
    ensures |Split(word, "_")| == multiset(word)['_'] + 1 >= 2
    ensures word == Split(word, "_")[0] + "_" + Join(Split(word, "_")[1..], "_")
    ensures RemoveAfterUnderscore(word, 2) == Split(word, "_")[0] + "_" + Split(word, "_")[1]
    ensures RemoveAfterUnderscore(word, 2) <= word
    ensures multiset(RemoveAfterUnderscore(word, 2))['_'] == 1
  {
    var parts := Split(word, "_");
    assert |parts| == multiset(word)['_'] + 1 >= 2 by {
      SplitCount(word, '_');
      assert '_' in multiset(word);
    }
    var r := parts[0] + "_" + parts[1];
    assert RemoveAfterUnderscore(word, 2) == r by {
      assert JoinLeading(parts, 1) == parts[0];
    }
    assert word == parts[0] + "_" + Join(parts[1..], "_") by {
      SplitJoinRoundTrip(word, "_");
    }
    assert r <= word by {
      JoinStartsWithHead(parts[1..], "_");
    }
    assert multiset(r)['_'] == 1 by {
      SplitPartsAvoidSeparator(word, '_');
      assert multiset(r) == multiset(parts[0]) + multiset("_") + multiset(parts[1]);
      assert '_' !in parts[0] && '_' !in parts[1];
    }
  }

  /** A word without an underscore is not left alone: its missing second segment reads as
      `undefined`. */
  lemma RemoveAfterUnderscoreNoUnderscore(word: string)
    requires '_' !in word
    ensures RemoveAfterUnderscore(word, 2) == word + "_" + Undefined
  {
    SplitWithoutSeparator(word, '_');
    assert JoinLeading([word], 1) == word;
    assert SegmentText([word], 1) == Undefined;
  }

  /** Replacing the only underscore between two underscore-free segments by a slash. */
  lemma UnderscoresToSlashesPair(a: string, b: string)
    requires '_' !in a && '_' !in b
    ensures ReplaceAll(a + "_" + b, "_", "/") == a + "/" + b
  {
    assert Join([a, b], "_") == a + "_" + b;
    JoinSplitRoundTrip([a, b], '_');
    assert Join([a, b], "/") == a + "/" + b;
  }

  /** Candidate 1, the direct form: the node id truncated to its first two segments, or the node
      id itself when it has no underscore. It is a prefix of the node id with at most one
      underscore, and is the node id exactly when the id has at most one underscore. */
  function DirectCandidate(nodeId: string): (r: string)
    ensures r <= nodeId
    ensures multiset(r)['_'] <= 1
    ensures r == nodeId <==> multiset(nodeId)['_'] <= 1
    ensures '_' in nodeId ==> |Split(nodeId, "_")| >= 2 && r == Split(nodeId, "_")[0] + "_" + Split(nodeId, "_")[1]
  {
    ContainsChar(nodeId, '_');
    if !Contains(nodeId, "_") then
      assert multiset(nodeId)['_'] == 0;
      nodeId
    else
      RemoveAfterUnderscoreTwo(nodeId);
      RemoveAfterUnderscore(nodeId, 2)
  }

  /** Candidate 2, the unification cross-reference form: the tag in front of the raw, untruncated
      node id. */
  function UnificationCandidate(nodeId: string): (r: string)
    ensures UnificationTag <= r
    ensures r[|UnificationTag|..] == nodeId
  {
    UnificationTag + nodeId
  }

  /** Candidate 3, the external identifier form: the two-segment truncation with underscores turned
      into slashes, under the identifiers.org base. Unlike the direct form, no underscore guard is
      applied first. The result is already a full URI, so the lookup does not prefix it, and no
      underscore is left after the base. */
  function ExternalCandidate(nodeId: string): (r: string)
    ensures IdentifiersBase <= r && Normalize(r) == r
    ensures '_' !in r[|IdentifiersBase|..]
  {
    var truncated := RemoveAfterUnderscore(nodeId, 2);
    var tail := ReplaceAll(truncated, "_", "/");
    SplitPartsAvoidSeparator(truncated, '_');
    JoinAvoids(Split(truncated, "_"), "/", '_');
    ContainsPrefix(IdentifiersBase, "http", tail);
    assert (IdentifiersBase + tail)[|IdentifiersBase|..] == tail;
    IdentifiersBase + tail
  }

  /** The external form starts with the identifiers.org base and has no underscore after it. For
      an id with underscores it is `base + first/second`; an id without underscores ends in
      `/undefined`. */
  lemma ExternalCandidateShape(nodeId: string)
    ensures IdentifiersBase <= ExternalCandidate(nodeId)
    ensures '_' !in ExternalCandidate(nodeId)[|IdentifiersBase|..]
    ensures '_' !in nodeId ==> ExternalCandidate(nodeId) == IdentifiersBase + (nodeId + "/" + Undefined)
    ensures '_' in nodeId ==>
      |Split(nodeId, "_")| >= 2 &&
      ExternalCandidate(nodeId) == IdentifiersBase + (Split(nodeId, "_")[0] + "/" + Split(nodeId, "_")[1])
  {
    var truncated := RemoveAfterUnderscore(nodeId, 2);
    var tail := ReplaceAll(truncated, "_", "/");
    assert ExternalCandidate(nodeId) == IdentifiersBase + tail;
    assert '_' !in tail by {
      SplitPartsAvoidSeparator(truncated, '_');
      JoinAvoids(Split(truncated, "_"), "/", '_');
    }
    assert (IdentifiersBase + tail)[|IdentifiersBase|..] == tail;
    if '_' in nodeId {
      ExternalOfSuffixed(nodeId);
    } else {
      ExternalOfPlain(nodeId);
    }
  }

  lemma ExternalOfSuffixed(nodeId: string)
    requires '_' in nodeId
    ensures |Split(nodeId, "_")| >= 2
    ensures ReplaceAll(RemoveAfterUnderscore(nodeId, 2), "_", "/") == Split(nodeId, "_")[0] + "/" + Split(nodeId, "_")[1]
  {
    var parts := Split(nodeId, "_");
    assert |parts| >= 2 && RemoveAfterUnderscore(nodeId, 2) == parts[0] + "_" + parts[1] by {
      RemoveAfterUnderscoreTwo(nodeId);
    }
    assert '_' !in parts[0] && '_' !in parts[1] by {
      SplitPartsAvoidSeparator(nodeId, '_');
    }
    UnderscoresToSlashesPair(parts[0], parts[1]);
  }

  lemma ExternalOfPlain(nodeId: string)
    requires '_' !in nodeId
    ensures ReplaceAll(RemoveAfterUnderscore(nodeId, 2), "_", "/") == nodeId + "/" + Undefined
  {
    RemoveAfterUnderscoreNoUnderscore(nodeId);
    UnderscoresToSlashesPair(nodeId, Undefined);
  }

  /** The candidate ids for a node, in the order they are tried. */
  function Candidates(nodeId: string): seq<string> {
    [DirectCandidate(nodeId), UnificationCandidate(nodeId), ExternalCandidate(nodeId)]
  }

  /** A node id carrying two suffix segments, `a_b_c`, is looked up directly as `a_b` and
      externally as `a/b`. */
  lemma SuffixedIdCandidates(a: string, b: string, c: string)
    requires '_' !in a && '_' !in b && '_' !in c
    ensures DirectCandidate(a + "_" + b + "_" + c) == a + "_" + b
    ensures ExternalCandidate(a + "_" + b + "_" + c) == IdentifiersBase + (a + "/" + b)
  {
    var nodeId := a + "_" + b + "_" + c;
    assert Split(nodeId, "_") == [a, b, c] by {
      assert Join([a, b, c], "_") == nodeId by {
        assert [a, b, c][1..] == [b, c];
        assert Join([b, c], "_") == b + "_" + c;
      }
      JoinSplitRoundTrip([a, b, c], '_');
    }
    assert '_' in nodeId by {
      assert nodeId[|a|] == '_';
    }
    assert DirectCandidate(nodeId) == a + "_" + b by {
      ContainsChar(nodeId, '_');
      RemoveAfterUnderscoreTwo(nodeId);
    }
    ExternalOfSuffixed(nodeId);
  }

  /** A node id with a single underscore, `a_b`, is looked up directly as itself and externally
      as `a/b`. */
  lemma SingleSuffixCandidates(a: string, b: string)
    requires '_' !in a && '_' !in b
    ensures DirectCandidate(a + "_" + b) == a + "_" + b
    ensures ExternalCandidate(a + "_" + b) == IdentifiersBase + (a + "/" + b)
  {
    var nodeId := a + "_" + b;
    assert Split(nodeId, "_") == [a, b] by {
      assert Join([a, b], "_") == nodeId;
      JoinSplitRoundTrip([a, b], '_');
    }
    assert '_' in nodeId by {
      assert nodeId[|a|] == '_';
    }
    assert DirectCandidate(nodeId) == nodeId by {
      ContainsChar(nodeId, '_');
      RemoveAfterUnderscoreTwo(nodeId);
    }
    ExternalOfSuffixed(nodeId);
  }
}
