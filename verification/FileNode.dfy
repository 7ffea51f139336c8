/** ast.File is the one node type with replaceable fields that ast.Walk skips: Comments,
    Imports and Unresolved. */
module FileNode {
  import opened AstNode
  import opened SlotCounting
  import opened DeepCopy

  const COMMENTS: nat := 0
  const DECLS: nat := 1
  const DOC: nat := 2
  const IMPORTS: nat := 3
  const NAME: nat := 4
  const UNRESOLVED: nat := 5

  const FILE_TYPE := NodeType("File", true,
                              [FieldSpec("Comments", Slice, {"CommentGroup"}),
                               FieldSpec("Decls", Slice, {"BadDecl", "FuncDecl", "GenDecl"}),
                               FieldSpec("Doc", One, {"CommentGroup"}),
                               FieldSpec("Imports", Slice, {"ImportSpec"}),
                               FieldSpec("Name", One, {"Ident"}),
                               FieldSpec("Unresolved", Slice, {"Ident"})],
                              [DOC, NAME, DECLS])

  // The package comment is listed among the file's comments, as go/parser does.
  ghost predicate DocIsListed(fields: Fields)
    requires FieldsFit(FILE_TYPE, fields)
  {
    ItemsFit(FILE_TYPE.specs[DOC], fields[DOC]) && fields[DOC][0] != null && fields[DOC][0] in fields[COMMENTS]
  }

  /** A file is copied faithfully exactly when its package comment is not listed. */
  lemma FileShadow(fields: Fields)
    requires FieldsFit(FILE_TYPE, fields)
    ensures ShadowFree(FILE_TYPE, fields) <==> !DocIsListed(fields)
  {
    forall i | 0 <= i < 6 ensures ItemsFit(FILE_TYPE.specs[i], fields[i]) {}
    if DocIsListed(fields) {
      assert fields[DOC][0] in fields[COMMENTS] && COMMENTS !in FILE_TYPE.walk && DOC in FILE_TYPE.walk;
    } else {
      forall u: nat, i, j | u < i < |fields| && u !in FILE_TYPE.walk && i in FILE_TYPE.walk && 0 <= j < |fields[i]| && fields[i][j] != null
        ensures fields[i][j] !in fields[u]
      {
        var c: Node := fields[i][j];
        assert c in fields[i];
      }
    }
  }

  function ListedDoc(doc: Node, name: Node): Fields
  {
    [[doc], [], [doc], [], [name], []]
  }

  lemma ListedDocFits(doc: Node, name: Node)
    requires doc.typ.name == "CommentGroup" && name.typ.name == "Ident"
    ensures FieldsFit(FILE_TYPE, ListedDoc(doc, name)) && DocIsListed(ListedDoc(doc, name))
  {
    var before := ListedDoc(doc, name);
    forall i | 0 <= i < 6 ensures ItemsFit(FILE_TYPE.specs[i], before[i]) {}
    assert before[DOC][0] in before[COMMENTS];
  }

  const GROUP_TYPE := NodeType("CommentGroup", true, [], [])
  const IDENT_TYPE := NodeType("Ident", true, [], [])

  /** A file with a listed package comment and nothing else, copied by DeepCopyNode: the copy
      succeeds, and some walked slot of the new file still holds the original's child. */
  method ListedDocExample() returns (file: Node, clone: Node, ghost memo: map<Node, Node>)
    ensures file.typ == FILE_TYPE && FieldsFit(FILE_TYPE, file.fields) && DocIsListed(file.fields)
    ensures file in memo && clone == memo[file] && fresh(clone) && clone.typ == FILE_TYPE
    ensures !WalkedCloned(FILE_TYPE, file.fields, clone.fields, memo)
  {
    hide ListedDoc, FieldsFit, DocIsListed, WalkedCloned, Faithful, ShadowFree, Finished, Closed, Copied, CopyOf, Inverse, BadNode;
    var doc := new Node(GROUP_TYPE, "", []);
    var name := new Node(IDENT_TYPE, "", []);
    file := new Node(FILE_TYPE, "", ListedDoc(doc, name));
    ListedDocFits(doc, name);
    ListedDocClosed(file, doc, name);
    var copied: Node?, origins, err;
    copied, origins, err, memo := DeepCopyNode(file, {file, doc, name});
    CopiedAlike({file, doc, name}, file, memo);
    FileShadow(file.fields);
    assert memo[file] in memo.Values;
    clone := copied;
  }

  lemma ListedDocClosed(file: Node, doc: Node, name: Node)
    requires doc.typ == GROUP_TYPE && doc.fields == [] && name.typ == IDENT_TYPE && name.fields == []
    requires file.typ == FILE_TYPE && file.fields == ListedDoc(doc, name)
    ensures Closed({file, doc, name})
    ensures forall p :: p in {file, doc, name} ==> !BadNode({file, doc, name}, file, p)
  {
    hide IsTrail;
    ListedDocFits(doc, name);
  }

  lemma CopiedAlike(graph: set<Node>, root: Node, memo: map<Node, Node>)
    requires Closed(graph) && (CopyOf(graph, root, memo) && root in memo)
    ensures memo[root].typ == root.typ
  {
  }

  /** Types whose replaceable fields are all walked are always copied faithfully. */
  lemma FullyWalked(t: NodeType, fields: Fields)
    requires FieldsFit(t, fields) && forall i: nat :: i < |t.specs| ==> i in t.walk
    ensures ShadowFree(t, fields)
  {
  }

  /** The same exception for ClonePath: a mutation of a listed package comment lands in
      Comments, and the Doc field keeps the original group. */
  lemma DocMutationLandsInComments(before: Fields, after: Fields, i: nat, j: nat, doc: Node, mutant: Node)
    requires FieldsFit(FILE_TYPE, before) && before[DOC] == [doc]
    requires mutant.typ == doc.typ && Replaced(FILE_TYPE, before, after, i, j, doc, mutant)
    ensures DocIsListed(before) ==> i == COMMENTS && after[DOC] == [doc] && after[COMMENTS][j] == mutant
    ensures !DocIsListed(before) ==> i == DOC && after[DOC] == [mutant] && after[COMMENTS] == before[COMMENTS]
  {
    forall f | 0 <= f < 6 ensures ItemsFit(FILE_TYPE.specs[f], before[f]) {}
    assert doc in before[DOC];
    if DocIsListed(before) {
      assert Hit(FILE_TYPE, before, COMMENTS, doc, mutant);
    } else {
      assert Hit(FILE_TYPE, before, DOC, doc, mutant);
    }
  }
}
