/** The label a message bubble shows for its delivery status. */
module Status {
  import opened Records
  import opened Text

  /** The status as the `MessageStatus` string union spells it: a
      non-empty word of lower-case letters. */
  function StatusName(s: MessageStatus): (r: string)
    ensures r != [] && forall i :: 0 <= i < |r| ==> 'a' <= r[i] <= 'z'
  {
    match s
    case Delivered => "delivered"
    case Read => "read"
    case Scheduled => "scheduled"
    case Failed => "failed"
  }

  /** `statusLabel`: the status name with its first letter capitalised. */
  function StatusLabel(s: MessageStatus): (r: string)
    ensures |r| == |StatusName(s)| > 0
    ensures 'A' <= r[0] <= 'Z' && LowerChar(r[0]) == StatusName(s)[0]
    ensures r[1..] == StatusName(s)[1..]
  {
    match s
    case Delivered => "Delivered"
    case Read => "Read"
    case Scheduled => "Scheduled"
    case Failed => "Failed"
  }

  /** The label determines the status name: lower-case its first letter. */
  lemma StatusNameFromLabel(s: MessageStatus)
    ensures StatusName(s) == [LowerChar(StatusLabel(s)[0])] + StatusLabel(s)[1..]
  {
    var name := StatusName(s);
    assert name == [name[0]] + name[1..];
  }

  /** Different statuses never share a label. */
  lemma StatusLabelInjective(a: MessageStatus, b: MessageStatus)
    requires StatusLabel(a) == StatusLabel(b)
    ensures a == b
  {
    StatusNameFromLabel(a);
    StatusNameFromLabel(b);
  }
}
