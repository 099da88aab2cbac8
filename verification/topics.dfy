/** Topic post-processing of `segment_by_topic` (segment_transcript_by_topic): the clusterer's
    labels are given, and the model covers the fallback labels for short inputs, the noise
    filter, the records it builds and the final sort by topic and start time. */
module Topics {
  import opened Sorting

  /** One transcript segment: start and end in seconds and its text. */
  datatype Segment = Segment(start: real, end: real, text: string)

  /** One output record: the segment's fields tagged with its topic. */
  datatype TopicRecord = TopicRecord(topicId: int, start: real, end: real, text: string)

  /** HDBSCAN's label for points it leaves unclustered. */
  const Noise: int := -1

  /** Below this many segments clustering is skipped. */
  const MinSamples: nat := 2

  /** The labels the loop zips with the segments: all zero for a single segment, otherwise
      what the clusterer returned. */
  function Labels(segments: seq<Segment>, clustered: seq<int>): (r: seq<int>)
    ensures |segments| < MinSamples ==> |r| == |segments| && forall i :: 0 <= i < |r| ==> r[i] == 0
    ensures |segments| >= MinSamples ==> r == clustered
  {
    if |segments| < MinSamples then seq(|segments|, _ => 0) else clustered
  }

  /** The record built for a segment with label `topic`. */
  function Tag(topic: int, seg: Segment): TopicRecord {
    TopicRecord(topic, seg.start, seg.end, seg.text)
  }

  /** The loop over `zip(labels, segments)`: it stops at the shorter of the two and skips a
      noise label. */
  function Group(labels: seq<int>, segments: seq<Segment>): (r: seq<TopicRecord>)
    ensures |r| <= |segments| && |r| <= |labels|
    ensures forall i :: 0 <= i < |r| ==> r[i].topicId != Noise
    decreases |segments|
  {
    if labels == [] || segments == [] then []
    else
      (if labels[0] == Noise then [] else [Tag(labels[0], segments[0])])
      + Group(labels[1..], segments[1..])
  }

  /** The sort key `(topic_id, start)`. */
  function TopicKey(r: TopicRecord): Key {
    Key(r.topicId, r.start)
  }

  /** `segment_by_topic` once the clusterer has labelled the segments. */
  function SegmentByTopic(segments: seq<Segment>, clustered: seq<int>): (r: seq<TopicRecord>)
    ensures segments == [] ==> r == []
    ensures |r| <= |segments|
    ensures forall i :: 0 <= i < |r| ==> r[i].topicId != Noise
    ensures SortedBy(r, TopicKey)
  {
    if segments == [] then []
    else
      var grouped := Group(Labels(segments, clustered), segments);
      var sorted := SortBy(grouped, TopicKey);
      assert forall i :: 0 <= i < |sorted| ==> sorted[i].topicId != Noise by {
        forall i | 0 <= i < |sorted|
          ensures sorted[i].topicId != Noise
        {
          assert sorted[i] in multiset(grouped);
        }
      }
      sorted
  }

  /** Segment `i` survives the noise filter with label `labels[i]`. */
  ghost predicate Kept(labels: seq<int>, segments: seq<Segment>, i: int) {
    0 <= i < |labels| && i < |segments| && labels[i] != Noise
  }

  /** A record comes out of the loop exactly when it is the tagged copy of a segment whose
      label is not noise. */
  lemma {:induction false} GroupMembers(labels: seq<int>, segments: seq<Segment>, x: TopicRecord)
    ensures x in Group(labels, segments) <==>
      exists i :: Kept(labels, segments, i) && x == Tag(labels[i], segments[i])
    decreases |segments|
  {
    if labels != [] && segments != [] {
      var rest := Group(labels[1..], segments[1..]);
      GroupMembers(labels[1..], segments[1..], x);
      if x in rest {
        var i :| Kept(labels[1..], segments[1..], i) && x == Tag(labels[1..][i], segments[1..][i]);
        assert Kept(labels, segments, i + 1) && x == Tag(labels[i + 1], segments[i + 1]);
      }
      if exists i :: Kept(labels, segments, i) && x == Tag(labels[i], segments[i]) {
        var i :| Kept(labels, segments, i) && x == Tag(labels[i], segments[i]);
        if i > 0 {
          assert Kept(labels[1..], segments[1..], i - 1) && x == Tag(labels[1..][i - 1], segments[1..][i - 1]);
        }
      }
    }
  }

  /** The output holds exactly the tagged non-noise segments, each as often as the loop built
      it: sorting only reorders. */
  lemma SegmentByTopicMembers(segments: seq<Segment>, clustered: seq<int>, x: TopicRecord)
    requires segments != []
    ensures var labels := Labels(segments, clustered);
      && multiset(SegmentByTopic(segments, clustered)) == multiset(Group(labels, segments))
      && (x in SegmentByTopic(segments, clustered) <==>
          exists i :: Kept(labels, segments, i) && x == Tag(labels[i], segments[i]))
  {
    var labels := Labels(segments, clustered);
    var grouped := Group(labels, segments);
    var r := SegmentByTopic(segments, clustered);
    assert x in r <==> x in multiset(r);
    assert x in grouped <==> x in multiset(grouped);
    GroupMembers(labels, segments, x);
  }

  /** From two segments on, the records carry the clusterer's own labels: a record comes back
      exactly when it tags a segment with its non-noise cluster label. */
  lemma ClusteredLabels(segments: seq<Segment>, clustered: seq<int>, x: TopicRecord)
    requires |segments| >= MinSamples
    ensures x in SegmentByTopic(segments, clustered) <==>
      exists i :: Kept(clustered, segments, i) && x == Tag(clustered[i], segments[i])
  {
    SegmentByTopicMembers(segments, clustered, x);
  }

  /** Ties on `(topic_id, start)` keep the order in which the loop met them. */
  lemma SegmentByTopicStable(segments: seq<Segment>, clustered: seq<int>, k: Key)
    requires segments != []
    ensures SameKey(SegmentByTopic(segments, clustered), TopicKey, k)
         == SameKey(Group(Labels(segments, clustered), segments), TopicKey, k)
  {
    SortStable(Group(Labels(segments, clustered), segments), TopicKey, k);
  }

  /** A lone segment is put in topic 0 and comes back as the one record, whatever the
      clusterer would have said. */
  lemma SingleSegment(seg: Segment, clustered: seq<int>)
    ensures SegmentByTopic([seg], clustered) == [Tag(0, seg)]
  {
    var labels := Labels([seg], clustered);
    assert labels == [0];
    assert Group(labels, [seg]) == [Tag(0, seg)] + Group([], []);
  }

  /** When the clusterer labels every segment as noise, nothing comes back. */
  lemma {:induction false} AllNoise(labels: seq<int>, segments: seq<Segment>)
    requires forall i :: 0 <= i < |labels| ==> labels[i] == Noise
    ensures Group(labels, segments) == []
    decreases |segments|
  {
    if labels != [] && segments != [] {
      AllNoise(labels[1..], segments[1..]);
    }
  }

  /** Records of one topic sit next to each other, in order of start time. */
  lemma TopicsContiguous(segments: seq<Segment>, clustered: seq<int>, i: int, j: int, k: int)
    requires var r := SegmentByTopic(segments, clustered);
      0 <= i < j < k < |r| && r[i].topicId == r[k].topicId
    ensures var r := SegmentByTopic(segments, clustered);
      r[j].topicId == r[i].topicId && r[i].start <= r[j].start <= r[k].start
  {
    var r := SegmentByTopic(segments, clustered);
    assert KeyLe(TopicKey(r[i]), TopicKey(r[j])) && KeyLe(TopicKey(r[j]), TopicKey(r[k]));
  }
}
