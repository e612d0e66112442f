/** The character classes with their start nodes and the ascendancy-to-class
    mapping of js/data.js:17-56, and the lookup getClassForAscendancy. */
module Classes {
  import opened Basics

  datatype ClassInfo = ClassInfo(id: nat, name: string, startNode: string, attribute: string)

  datatype AscendancyInfo = AscendancyInfo(className: string, name: string)

  /** The class keys in declaration order (the order Object.values reports). */
  const ClassOrder: seq<string> := ["warrior", "marauder", "ranger", "mercenary", "sorceress", "witch", "monk"]

  const ClassTable: map<string, ClassInfo> := map[
    "warrior" := ClassInfo(0, "Warrior", "warrior_start", "str"),
    "marauder" := ClassInfo(1, "Marauder", "marauder_start", "str"),
    "ranger" := ClassInfo(2, "Ranger", "ranger_start", "dex"),
    "mercenary" := ClassInfo(3, "Mercenary", "mercenary_start", "dex"),
    "sorceress" := ClassInfo(4, "Sorceress", "sorceress_start", "int"),
    "witch" := ClassInfo(5, "Witch", "witch_start", "int"),
    "monk" := ClassInfo(6, "Monk", "monk_start", "dex_int")
  ]

  const AscendancyTable: map<string, AscendancyInfo> := map[
    "titan" := AscendancyInfo("warrior", "Titan"),
    "warbringer" := AscendancyInfo("warrior", "Warbringer"),
    "bloodmage" := AscendancyInfo("marauder", "Blood Mage"),
    "infernalist" := AscendancyInfo("marauder", "Infernalist"),
    "deadeye" := AscendancyInfo("ranger", "Deadeye"),
    "pathfinder" := AscendancyInfo("ranger", "Pathfinder"),
    "witchhunter" := AscendancyInfo("mercenary", "Witchhunter"),
    "gemlinglegionnaire" := AscendancyInfo("mercenary", "Gemling Legionnaire"),
    "chronomancer" := AscendancyInfo("sorceress", "Chronomancer"),
    "stormweaver" := AscendancyInfo("sorceress", "Stormweaver"),
    "acolyte" := AscendancyInfo("witch", "Acolyte of Chayula"),
    "invoker" := AscendancyInfo("witch", "Invoker"),
    "chayuladisciple" := AscendancyInfo("monk", "Disciple of Chayula"),
    "invokermonk" := AscendancyInfo("monk", "Invoker of Storms")
  ]

  /** Every ascendancy names a class of the class table. */
  lemma AscendanciesResolve()
    ensures forall a :: a in AscendancyTable ==> AscendancyTable[a].className in ClassTable
  {
  }

  /** getClassForAscendancy: the class record of a known ascendancy, and
      nothing (null) for any other name. */
  function GetClassForAscendancy(ascendancy: string): (r: Option<ClassInfo>)
    ensures r.Some? <==> ascendancy in AscendancyTable
    ensures r.Some? ==> r.value == ClassTable[AscendancyTable[ascendancy].className]
  {
    AscendanciesResolve();
    if ascendancy in AscendancyTable && AscendancyTable[ascendancy].className in ClassTable
    then Some(ClassTable[AscendancyTable[ascendancy].className])
    else None
  }

  /** The start node ids of the classes, in class order. */
  function StartNodes(): (r: seq<string>)
    ensures |r| == |ClassOrder|
  {
    seq(|ClassOrder|, i requires 0 <= i < |ClassOrder| => ClassTable[ClassOrder[i]].startNode)
  }
}
