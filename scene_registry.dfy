/** The registry of regression-test scenes: a fixed list of configurations,
    lookup by name with a fallback to the first, and the path of a scene's
    reference image. */
module SceneRegistry {

  datatype SceneConfig = SceneConfig(
    name: string,
    scenePath: string,
    referenceName: string,
    iterations: int,
    hasReference: bool)

  const ReferencesDirectory := "tests/references/"

  /** Every test scene, in registration order. */
  function AllScenes(): (scenes: seq<SceneConfig>)
    ensures |scenes| == 5
    ensures forall i :: 0 <= i < |scenes| ==> scenes[i].hasReference && scenes[i].iterations >= 1
  {
    [ SceneConfig("two_spheres", "scenes/two-spheres-on-plane.json", "two-spheres-on-plane", 3, true),
      SceneConfig("triangles", "scenes/two-triangles-on-plane.json", "two-triangles-on-plane", 2, true),
      SceneConfig("iso_sphere_mesh", "scenes/iso-sphere-on-plane.json", "iso-sphere-on-plane", 2, true),
      SceneConfig("monkey_mesh", "scenes/monkey-on-plane.json", "monkey-on-plane", 2, true),
      SceneConfig("galaxy", "scenes/sphere-galaxy-on-plane.json", "sphere-galaxy-on-plane", 1, true) ]
  }

  /** The registered names, in order. */
  function Names(scenes: seq<SceneConfig>): (names: seq<string>)
    ensures |names| == |scenes|
    ensures forall i :: 0 <= i < |scenes| ==> names[i] == scenes[i].name
  {
    seq(|scenes|, i requires 0 <= i < |scenes| => scenes[i].name)
  }

  /** Five scenes, in the order two_spheres, triangles, iso_sphere_mesh,
      monkey_mesh, galaxy; every one has a reference image; the slow galaxy
      scene runs once, two_spheres three times, the others twice; the names
      are distinct. */
  lemma AllScenesContents()
    ensures Names(AllScenes()) == ["two_spheres", "triangles", "iso_sphere_mesh", "monkey_mesh", "galaxy"]
    ensures forall c :: c in AllScenes() ==> c.hasReference
    ensures forall c :: c in AllScenes() ==>
              c.iterations == (if c.name == "two_spheres" then 3 else if c.name == "galaxy" then 1 else 2)
    ensures forall i, j :: 0 <= i < j < |AllScenes()| ==> AllScenes()[i].name != AllScenes()[j].name
  {
    var n := Names(AllScenes());
    assert n[0] == "two_spheres" && n[1] == "triangles" && n[2] == "iso_sphere_mesh";
    assert n[3] == "monkey_mesh" && n[4] == "galaxy";
  }

  /** The position of the first configuration in `scenes` named `name`,
      or `|scenes|` when there is none. */
  function FirstNamed(scenes: seq<SceneConfig>, name: string): (k: nat)
    ensures k <= |scenes|
    ensures forall j :: 0 <= j < k ==> scenes[j].name != name
    ensures k < |scenes| ==> scenes[k].name == name
  {
    if |scenes| == 0 || scenes[0].name == name then 0
    else 1 + FirstNamed(scenes[1..], name)
  }

  /** The scene named `name`, or the first registered scene when no scene
      has that name. */
  function GetScene(name: string): (c: SceneConfig)
    ensures c in AllScenes()
    ensures (exists i :: 0 <= i < |AllScenes()| && AllScenes()[i].name == name) ==> c.name == name
  {
    var scenes := AllScenes();
    var k := FirstNamed(scenes, name);
    if k < |scenes| then scenes[k] else scenes[0]
  }

  /** An unknown name falls back to two_spheres. */
  lemma GetSceneUnknown(name: string)
    requires name !in Names(AllScenes())
    ensures GetScene(name) == AllScenes()[0] && GetScene(name).name == "two_spheres"
  {
    var n := Names(AllScenes());
    assert forall i :: 0 <= i < |AllScenes()| ==> AllScenes()[i].name == n[i];
  }

  /** Each registered scene is found under its own name. */
  lemma GetSceneRegistered(i: int)
    requires 0 <= i < |AllScenes()|
    ensures GetScene(AllScenes()[i].name) == AllScenes()[i]
  {
    AllScenesContents();
  }

  /** The reference image of a reference name; the threading mode is
      ignored. */
  function GetReferencePathForMode(referenceName: string, useMultithread: bool): (p: string)
    ensures |p| == |ReferencesDirectory| + |referenceName| + 4
    ensures p[..|ReferencesDirectory|] == ReferencesDirectory
    ensures p[|ReferencesDirectory|..|p| - 4] == referenceName
    ensures p[|p| - 4..] == ".png"
  {
    ReferencesDirectory + referenceName + ".png"
  }

  /** Both threading modes share one reference, and different reference
      names have different paths. */
  lemma ReferencePathSharedAndInjective(name1: string, name2: string, mode1: bool, mode2: bool)
    ensures GetReferencePathForMode(name1, mode1) == GetReferencePathForMode(name1, mode2)
    ensures GetReferencePathForMode(name1, mode1) == GetReferencePathForMode(name2, mode2) ==> name1 == name2
  {
    var p := GetReferencePathForMode(name1, mode1);
    if p == GetReferencePathForMode(name2, mode2) {
      assert name1 == p[|ReferencesDirectory|..|p| - 4];
    }
  }
}
