/**
 Wiring a new service into the infrastructure repository's compose file
 (`update_infra_stack`): skip when the service's container is already
 declared, otherwise splice the service block in before the first
 "networks:" key, or append it when there is none.
 */
module Compose {
  import opened Wrappers
  import opened Text

  const NetworksKey: string := "networks:"

  /** The image the build workflow pushes for a project of the organisation. */
  function ImageUrl(project: string, owner: string): string {
    "ghcr.io/" + owner + "/" + project + ":latest"
  }

  /** The line whose presence marks the service as already deployed. */
  function ContainerLine(project: string): string {
    "container_name: " + project
  }

  /**
   The compose service block for `project` (the `new_service` template),
   with its proxy and router labels. It declares the project's own container
   line, so a manifest that received it counts as already wired.
   */
  function ServiceBlock(project: string, owner: string): (b: string)
    ensures Contains(b, ContainerLine(project))
  {
    var head := "\n  \n  # --- Auto: " + project + " (" + owner + ") ---\n  " + project + ":\n"
      + "    image: " + ImageUrl(project, owner) + "\n    ";
    var tail := "\n    restart: always\n    labels:\n"
      + "      - \"tsdproxy.enable=true\"\n"
      + "      - \"tsdproxy.name=" + project + "\"\n"
      + "      - \"tsdproxy.container_port=80\"\n"
      + "      - \"traefik.enable=true\"\n"
      + "      - \"traefik.http.routers." + project + ".rule=Host(`" + project + ".${DOMAIN}`)\"\n"
      + "      - \"traefik.http.routers." + project + ".entrypoints=web\"\n"
      + "      - \"com.centurylinklabs.watchtower.enable=true\"\n"
      + "    networks:\n      - siec\n";
    OccursInMiddle(head, ContainerLine(project), tail);
    head + ContainerLine(project) + tail
  }

  /** Either nothing is written, or the manifest is replaced by `content`. */
  datatype Outcome = AlreadyPresent | Updated(content: string)

  /** Where a service block goes: at the first "networks:", or at the end. */
  function InsertionPoint(content: string): (i: nat)
    ensures i <= |content|
    ensures i < |content| <==> Contains(content, NetworksKey)
    ensures i < |content| ==> FirstAt(content, NetworksKey, i)
  {
    ContainsIffFound(content, NetworksKey);
    FindOrEnd(content, NetworksKey, 0)
  }

  /**
   The splice as written: `parts = content.split("networks:")` and
   `parts[0] + new_service + "\nnetworks:" + parts[1]`, so only the first
   two pieces of the split survive; without "networks:" the block is
   appended.
   */
  function SpliceAsWritten(content: string, block: string): (r: string)
    ensures var i := InsertionPoint(content);
            i + |block| <= |r| && r[..i] == content[..i] && OccursAt(r, block, i)
    ensures InsertionPoint(content) == |content| ==> |r| == |content| + |block|
  {
    if Contains(content, NetworksKey) then
      var parts := Split(content, NetworksKey);
      parts[0] + block + ("\n" + NetworksKey + parts[1])
    else
      content + block
  }

  /**
   The splice the source evidently intends: insert the block and a newline
   before the first "networks:" and keep all of the manifest (see
   `JoinFixIsIntended` for the same in terms of the split pieces), or append
   the block when there is no "networks:".
   */
  function SpliceIntended(content: string, block: string): (r: string)
    ensures var i := InsertionPoint(content);
            var ins := if i < |content| then block + "\n" else block;
            |r| == |content| + |ins| && r[i..i + |ins|] == ins
  {
    var i := InsertionPoint(content);
    var ins := if i < |content| then block + "\n" else block;
    InsertShape(content[..i], ins, content[i..]);
    content[..i] + ins + content[i..]
  }

  /** Taking the inserted text out of the intended splice gives back the manifest unchanged. */
  lemma SpliceIntendedUndo(content: string, block: string)
    ensures var i := InsertionPoint(content);
            var ins := if i < |content| then block + "\n" else block;
            RemoveAt(SpliceIntended(content, block), i, |ins|) == content
  {
    var i := InsertionPoint(content);
    var ins := if i < |content| then block + "\n" else block;
    var a := content[..i];
    var b := content[i..];
    assert SpliceIntended(content, block) == a + ins + b;
    InsertShape(a, ins, b);
    SplitAt(content, i);
  }

  /**
   The one-line repair of the source, `parts[0] + new_service + "\nnetworks:"
   + "networks:".join(parts[1:])`, is the intended splice.
   */
  lemma JoinFixIsIntended(content: string, block: string)
    requires Contains(content, NetworksKey)
    ensures var parts := Split(content, NetworksKey);
            parts[0] + block + ("\n" + NetworksKey + Join(parts[1..], NetworksKey)) == SpliceIntended(content, block)
  {
    var i := InsertionPoint(content);
    var parts := Split(content, NetworksKey);
    KeptIsRest(content);
    var rest := NetworksKey + Join(parts[1..], NetworksKey);
    DropPrefix(parts[0], NetworksKey, Join(parts[1..], NetworksKey), content);
    Regroup(parts[0], block, rest);
  }

  /** Rejoining the pieces after the first restores everything after the first "networks:". */
  lemma KeptIsRest(content: string)
    requires Contains(content, NetworksKey)
    ensures Split(content, NetworksKey)[0] == content[..InsertionPoint(content)]
    ensures Split(content, NetworksKey)[0] + NetworksKey + Join(Split(content, NetworksKey)[1..], NetworksKey) == content
  {
    var k := InsertionPoint(content);
    var m := k + |NetworksKey|;
    var parts := Split(content, NetworksKey);
    FirstIsFound(content, NetworksKey, k);
    SplitFromStep(content, NetworksKey, 0, k);
    var rest := SplitFrom(content, NetworksKey, m);
    assert parts[1..] == rest;
    SplitFromJoin(content, NetworksKey, m);
    assert content[k..m] == NetworksKey;
    SplitAt(content, k);
    SliceAt(content, k, m);
    AppendTail(content[..k], NetworksKey, content[m..]);
  }

  /**
   With "networks:" first at `k`, the source writes the text before `k`, the
   block, a newline, and the text from `k` up to the second "networks:" (or
   the end): anything from a second "networks:" on is lost.
   */
  lemma {:induction false} SpliceAsWrittenShape(content: string, block: string, k: nat)
    requires FirstAt(content, NetworksKey, k)
    ensures var e := FindOrEnd(content, NetworksKey, k + |NetworksKey|);
            k + |NetworksKey| <= e <= |content| &&
            SpliceAsWritten(content, block) == content[..k] + block + "\n" + content[k..e]
  {
    var n := |NetworksKey|;
    FirstIsFound(content, NetworksKey, k);
    ContainsIffFound(content, NetworksKey);
    var parts := Split(content, NetworksKey);
    SplitSecond(content, NetworksKey, k);
    var e := FindOrEnd(content, NetworksKey, k + n);
    assert content[k..e] == NetworksKey + content[k + n..e] by {
      assert content[k..k + n] == NetworksKey;
      SplitAt(content[k..e], n);
    }
    Reassemble(content[..k], block, NetworksKey, content[k + n..e], content[k..e]);
  }

  /**
   What the source loses: when a second "networks:" starts at `e`, the
   manifest it writes is the intended one without the text from `e` on,
   which holds at least that second "networks:".
   */
  lemma {:induction false} AsWrittenDropsTail(content: string, block: string, k: nat, e: nat)
    requires FirstAt(content, NetworksKey, k)
    requires Find(content, NetworksKey, k + |NetworksKey|) == Some(e)
    ensures SpliceIntended(content, block) == SpliceAsWritten(content, block) + content[e..]
    ensures OccursAt(content, NetworksKey, e)
  {
    assert FindOrEnd(content, NetworksKey, k + |NetworksKey|) == e;
    SpliceAsWrittenShape(content, block, k);
    SpliceIntendedShape(content, block, k);
    TailLost(content[..k] + block + "\n", content, k, e, SpliceAsWritten(content, block), SpliceIntended(content, block));
  }

  /** With "networks:" first at `k`, the intended splice inserts the block and a newline there. */
  lemma SpliceIntendedShape(content: string, block: string, k: nat)
    requires FirstAt(content, NetworksKey, k)
    ensures SpliceIntended(content, block) == content[..k] + block + "\n" + content[k..]
  {
    var intended := SpliceIntended(content, block);
    assert k == InsertionPoint(content);
    SpliceIntendedUndo(content, block);
    PutBack(intended, k, |block| + 1, content);
  }

  /** Text inside a block placed at `i` is text of the whole. */
  lemma ContainsVia(r: string, block: string, i: nat, p: string)
    requires OccursAt(r, block, i) && Contains(block, p)
    ensures Contains(r, p)
  {
    assert r == r[..i] + block + r[i + |block|..];
    ContainsInMiddle(r[..i], block, r[i + |block|..], p);
  }

  /** Whatever the block contains, the spliced manifest contains. */
  lemma SpliceKeeps(content: string, block: string, p: string)
    requires Contains(block, p)
    ensures Contains(SpliceAsWritten(content, block), p)
  {
    ContainsVia(SpliceAsWritten(content, block), block, InsertionPoint(content), p);
  }

  /**
   `update_infra_stack` on the manifest text: nothing is written when the
   project's container line is already there; otherwise the service block is
   spliced in as written and the new manifest declares the container.
   */
  function AddService(content: string, project: string, owner: string): (o: Outcome)
    ensures o.AlreadyPresent? <==> Contains(content, ContainerLine(project))
    ensures o.Updated? ==> Contains(o.content, ContainerLine(project))
    ensures o.Updated? ==> o.content == SpliceAsWritten(content, ServiceBlock(project, owner))
  {
    if Contains(content, ContainerLine(project)) then AlreadyPresent
    else
      var block := ServiceBlock(project, owner);
      SpliceKeeps(content, block, ContainerLine(project));
      Updated(SpliceAsWritten(content, block))
  }

  /** Once a service was added, adding it again writes nothing. */
  lemma AddServiceIdempotent(content: string, project: string, owner: string)
    requires AddService(content, project, owner).Updated?
    ensures AddService(AddService(content, project, owner).content, project, owner) == AlreadyPresent
  {
  }

  /**
   The "already present" test is a substring test: a declared container
   whose name merely starts with the project's name also makes the source
   skip the project.
   */
  lemma NamePrefixSkips(content: string, project: string, owner: string, suffix: string)
    requires Contains(content, ContainerLine(project + suffix))
    ensures AddService(content, project, owner) == AlreadyPresent
  {
    assert ContainerLine(project + suffix) == ContainerLine(project) + suffix;
    ContainsPrefix(content, ContainerLine(project), suffix);
  }
}
