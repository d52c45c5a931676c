/** When an artifact is due for cleanup, and which rows that removes: stated over the rows alone. */
module RetentionRules {
  import opened Evidence
  import opened Lists
  import opened Retention

  // ----- when an artifact is due

  /** Times in seconds: temporary artifacts live for hours, debug ones and the raw types for days; the raw types are
      packet captures with a period of their own, and the output of scanners and protocol tools. */
  lemma DueMeans(a: Artifact, now: int, policy: Policy, includeRaw: bool)
    ensures Due(a, now, policy, includeRaw) <==>
              || (a.retention == "temporary" && now - a.createdAt > 60 * 60 * policy.temporaryHours)
              || (a.retention == "debug" && now - a.createdAt > 24 * 60 * 60 * policy.debugDays)
              || (includeRaw && a.kind == "packet_capture" && now - a.createdAt > 24 * 60 * 60 * policy.packetCaptureDays)
              || (includeRaw && (a.kind == "nmap_xml" || a.kind == "protocol_tool_output")
                  && now - a.createdAt > 24 * 60 * 60 * policy.rawProviderDays)
  {
  }

  /** A row is removable when it is due and its path does not leave the root. */
  lemma RemovableMember(root: Path, artifacts: seq<Artifact>, now: int, policy: Policy, includeRaw: bool, a: Artifact)
    ensures a in RemovableRows(root, artifacts, now, policy, includeRaw) <==>
              a in artifacts && Due(a, now, policy, includeRaw) && root <= PathOf(root, a)
    ensures a in KeptRows(root, artifacts, now, policy, includeRaw) <==>
              a in artifacts && !(Due(a, now, policy, includeRaw) && root <= PathOf(root, a))
  {
    FilterMember(artifacts, (a: Artifact) => Removable(root, a, now, policy, includeRaw), a);
    FilterMember(artifacts, (a: Artifact) => !Removable(root, a, now, policy, includeRaw), a);
  }
}
