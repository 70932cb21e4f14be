// The test vector of core/scalar-crypto/src/poseidon2.rs: the permutation of four zeros, round by round.
//
// Every round constant, the S-box exponent, both linear layers and the kinds of the rounds take part.
module PoseidonVectors {
  import opened ModArith
  import opened Goldilocks
  import opened Poseidon2

  /** x^7 reduced, by its quotient modulo P. */
  lemma SboxValue(x: int, y: int, q: int)
    requires 0 <= y < P && x * x * x * x * x * x * x == q * P + y
    ensures Sbox(x) == y
  {
    SboxIsSeventh(x);
    DivModUnique(x * x * x * x * x * x * x, q, y, P);
  }

  /** A full round: constants added to give u, the S-box on every word to give v, then M_E. */
  lemma FullStep(start: State, r: nat, s: State, u: State, v: State, t: State)
    requires r < TOTAL_ROUNDS && (r < 4 || r >= 26) && Rounds(r, start) == s && Plus(s, Constants(r)) == u
    requires Sbox(u.s0) == v.s0 && Sbox(u.s1) == v.s1 && Sbox(u.s2) == v.s2 && Sbox(u.s3) == v.s3
    requires FullLayer(v) == t
    ensures Rounds(r + 1, start) == t
  {
    hide Plus, Constants, Sbox, FullLayer, PartialLayer;
  }

  /** A partial round: constants added, the S-box on the first word, then M_I. */
  lemma PartialStep(start: State, r: nat, s: State, u: State, v: State, t: State)
    requires 4 <= r < 26 && Rounds(r, start) == s && Plus(s, Constants(r)) == u
    requires v == u.(s0 := Sbox(u.s0)) && PartialLayer(v) == t
    ensures Rounds(r + 1, start) == t
  {
    hide Plus, Constants, Sbox, FullLayer, PartialLayer;
  }

  lemma Round0(s: State, r: nat)
    requires r == 0 && Rounds(r, s) == State(0, 0,
                                             0, 0)
    ensures Rounds(r + 1, s) == State(3349870232294930360, 130402075761412021,
                                      4434722934657978112, 2196055098176099384)
  {
    hide Sbox, Rounds;
    SboxValue(4228553358597617417, 7660371836300455730,
              0x22dfcd317ded700e69feba511e37784d4dc3fecb18a42f89eed05d7c3a1779645b2560188beddfd69bb3edaa63d47);
    SboxValue(3289418787715056994, 8084432207625544443,
              0x602fd9fe5377850407a8fee90ecf2ff0ddbf1f1192820de60ae92a1dc25e615a5624254511727ae49554c0c88585);
    SboxValue(12081695645596633962, 14455300822324469899,
              0xd3bf36fb87ac4a87862f867a58266e11a8096f48a16e390e8fb4ed90bac7106459bea7379b7827ca62c6e61f3545df5);
    SboxValue(13551918421581681991, 1560716397192292212,
              0x1d912758af10169f9067aaa669d543f87e8c6092a2cef9874b45ca18e5b893a712bff4b959244c163345f124bf9fda43);
    FullStep(s, r, State(0, 0,
                         0, 0),
                   State(4228553358597617417, 3289418787715056994,
                         12081695645596633962, 13551918421581681991),
                   State(7660371836300455730, 8084432207625544443,
                         14455300822324469899, 1560716397192292212),
                   State(3349870232294930360, 130402075761412021,
                         4434722934657978112, 2196055098176099384));
  }

  lemma Round1(s: State, r: nat)
    requires r == 1 && Rounds(r, s) == State(3349870232294930360, 130402075761412021,
                                             4434722934657978112, 2196055098176099384)
    ensures Rounds(r + 1, s) == State(13060161842748585328, 8927208117469803952,
                                      9155511429690554199, 9522360913678139193)
  {
    hide Sbox, Rounds;
    SboxValue(5300297140492090898, 681250596491996291,
              0xa9895c42511904809770a1c7bc111fb39b4d5fc78e54b1678c95ff6b6e6b25bdbaf6ceae585548d42b3e723948ffd);
    SboxValue(6519658790660718711, 7995148553157823054,
              0x2d25498d35824d33afe072a02ca4355c41d346142b4a9ffa7297205a59db5173c38c6b90c3ee1105350ffc596285b9);
    SboxValue(3024610266887345985, 4730461212687346575,
              0x3573d53051d3a1fd68e69d4df911f2a0df443c021ae1695bf8dc7c3c09e7400a88798c2be970c04864b84db28732);
    SboxValue(13565162553346900429, 7581461351051611068,
              0x1dc5162367f51893f362fe16081433283b3329220d9cb6be15cad21b54d1cd4b7227e7464b10db1f75cc4705c937d5e9);
    FullStep(s, r, State(3349870232294930360, 130402075761412021,
                         4434722934657978112, 2196055098176099384),
                   State(5300297140492090898, 6519658790660718711,
                         3024610266887345985, 13565162553346900429),
                   State(681250596491996291, 7995148553157823054,
                         4730461212687346575, 7581461351051611068),
                   State(13060161842748585328, 8927208117469803952,
                         9155511429690554199, 9522360913678139193));
  }

  lemma Round2(s: State, r: nat)
    requires r == 2 && Rounds(r, s) == State(13060161842748585328, 8927208117469803952,
                                             9155511429690554199, 9522360913678139193)
    ensures Rounds(r + 1, s) == State(6270463349605408989, 17108088592325558308,
                                      16730293874854653150, 1659005160189847368)
  {
    hide Sbox, Rounds;
    SboxValue(2193148997629926200, 1362784966943566882,
              0x5a21c7b7c56428668838a9cb668d2c9fa697ca5c946c9dfb0497a3e7b27969d956cf26bf4faaaffa217cef613de);
    SboxValue(17117003427345531950, 15352343373337728008,
              0x97a241ebdd18d62a48401de8c885a180c28f5d2f00b56330b0c635af60e205faa80c1f3570ed208d18a85062d6ba9f78);
    SboxValue(9563323601473805183, 11518928237647155390,
              0x293a29d9d9b66cdafaa0de7ad7fde7ae04bb1a995646add37510452f2dd6cfdb04cc2e485dfa38963784100169a2fc1);
    SboxValue(7429042113384862939, 3199471716592804460,
              0x709bce28fc45eeb4f13b48e015ef571b51aa50b6974ed02d4f65335dfd516fa82d8f57470b475f49ee5ff457bbcb87);
    FullStep(s, r, State(13060161842748585328, 8927208117469803952,
                         9155511429690554199, 9522360913678139193),
                   State(2193148997629926200, 17117003427345531950,
                         9563323601473805183, 7429042113384862939),
                   State(1362784966943566882, 15352343373337728008,
                         11518928237647155390, 3199471716592804460),
                   State(6270463349605408989, 17108088592325558308,
                         16730293874854653150, 1659005160189847368));
  }

  lemma Round3(s: State, r: nat)
    requires r == 3 && Rounds(r, s) == State(6270463349605408989, 17108088592325558308,
                                             16730293874854653150, 1659005160189847368)
    ensures Rounds(r + 1, s) == State(578461384370810090, 13256431451792142313,
                                      8990831356900849537, 11096497865342187966)
  {
    hide Sbox, Rounds;
    SboxValue(124916900267580197, 2522625289725378176,
              0x2f0da51b0cc2ef3e0ae7bb5bac44500284cd5074f4087d02216c3151778195d330341f431ad84c63238d);
    SboxValue(11533164766913571868, 3250505424725611678,
              0x98f4458519690524d539e5cc0acba52e81e0c80e79b3ff7eb6272a67c8c825a8ca87484a879ab0c8b73f37dde3dab62);
    SboxValue(1862970909384421610, 17679221286658815641,
              0x1cc38009ef6a4b38b720135c198c3a040e0a63f82de658ea67c4da4ddd5062d0cc1479057b7e107cc6a47bc27e7);
    SboxValue(12784912182857521679, 13255432007692914476,
              0x13aa264ce165ec7d979934f15f1cf8c28aa0169b1573833f60f2ff08dc235214770fcc4729d8eae8a5736c6341794243);
    FullStep(s, r, State(6270463349605408989, 17108088592325558308,
                         16730293874854653150, 1659005160189847368),
                   State(124916900267580197, 11533164766913571868,
                         1862970909384421610, 12784912182857521679),
                   State(2522625289725378176, 3250505424725611678,
                         17679221286658815641, 13255432007692914476),
                   State(578461384370810090, 13256431451792142313,
                         8990831356900849537, 11096497865342187966));
  }

  lemma Round4(s: State, r: nat)
    requires r == 4 && Rounds(r, s) == State(578461384370810090, 13256431451792142313,
                                             8990831356900849537, 11096497865342187966)
    ensures Rounds(r + 1, s) == State(5705416903825624109, 4721760330180017767,
                                      14945784488821020773, 16112651517842217889)
  {
    hide Sbox, Rounds;
    SboxValue(16015439768932549731, 10897640859911057073,
              0x5f2faac619a4b1efe47d3b9841f50cc188f694ce5cf9b9089dfeaea92284bb67ff379f27c2906fca92a325ba3efeeb7a);
    PartialStep(s, r, State(578461384370810090, 13256431451792142313,
                            8990831356900849537, 11096497865342187966),
                      State(16015439768932549731, 17463087495768977979,
                            4620183792497698332, 9617992894477059367),
                      State(10897640859911057073, 17463087495768977979,
                            4620183792497698332, 9617992894477059367),
                      State(5705416903825624109, 4721760330180017767,
                            14945784488821020773, 16112651517842217889));
  }

  lemma Round5(s: State, r: nat)
    requires r == 5 && Rounds(r, s) == State(5705416903825624109, 4721760330180017767,
                                             14945784488821020773, 16112651517842217889)
    ensures Rounds(r + 1, s) == State(8391696232951165536, 2447433720452664414,
                                      10424729799484030254, 5549547389154284532)
  {
    hide Sbox, Rounds;
    SboxValue(7455527036158580048, 14266824910115527967,
              0x7372f42b90c7e444ccd6f4d90cce840c4316677d772fc461438b41e06416e10dc5c86273ecc4cb7e95cf0417dea2e1);
    PartialStep(s, r, State(5705416903825624109, 4721760330180017767,
                            14945784488821020773, 16112651517842217889),
                      State(7455527036158580048, 12502481556916083199,
                            1016516783266432359, 17499361121482290653),
                      State(14266824910115527967, 12502481556916083199,
                            1016516783266432359, 17499361121482290653),
                      State(8391696232951165536, 2447433720452664414,
                            10424729799484030254, 5549547389154284532));
  }

  lemma Round6(s: State, r: nat)
    requires r == 6 && Rounds(r, s) == State(8391696232951165536, 2447433720452664414,
                                             10424729799484030254, 5549547389154284532)
    ensures Rounds(r + 1, s) == State(1149409650751465266, 7782361692078614206,
                                      11325780432852058170, 6228556154222126084)
  {
    hide Sbox, Rounds;
    SboxValue(3236023653966447019, 33052763493522482,
              0x55c68c3f8e40c5fd6df157035f966ef05e1fded9d23c70775792f3845348a3d3cc465820105d1def5e9e2b8c0bf1);
    PartialStep(s, r, State(8391696232951165536, 2447433720452664414,
                            10424729799484030254, 5549547389154284532),
                      State(3236023653966447019, 6632952041327148940,
                            5088185391050296452, 7841963524295081713),
                      State(33052763493522482, 6632952041327148940,
                            5088185391050296452, 7841963524295081713),
                      State(1149409650751465266, 7782361692078614206,
                            11325780432852058170, 6228556154222126084));
  }

  lemma Round7(s: State, r: nat)
    requires r == 7 && Rounds(r, s) == State(1149409650751465266, 7782361692078614206,
                                             11325780432852058170, 6228556154222126084)
    ensures Rounds(r + 1, s) == State(4202018225690640105, 314395475677335675,
                                      5857661779163310922, 9637767587786375)
  {
    hide Sbox, Rounds;
    SboxValue(15606533471334197687, 11733736696570991090,
              0x4f6c52ce749be88b634fcef9ae5fe8a11d63eca97ca41755f41d44c5d7b3c6b5cd55af2d5b8791d77bba246d65e382d5);
    PartialStep(s, r, State(1149409650751465266, 7782361692078614206,
                            11325780432852058170, 6228556154222126084),
                      State(15606533471334197687, 14559121319401279891,
                            10051193811443627569, 4751454537103910197),
                      State(11733736696570991090, 14559121319401279891,
                            10051193811443627569, 4751454537103910197),
                      State(4202018225690640105, 314395475677335675,
                            5857661779163310922, 9637767587786375));
  }

  lemma Round8(s: State, r: nat)
    requires r == 8 && Rounds(r, s) == State(4202018225690640105, 314395475677335675,
                                             5857661779163310922, 9637767587786375)
    ensures Rounds(r + 1, s) == State(4037285979355268741, 13551352909680524466,
                                      7630100526707783733, 12690664368781181001)
  {
    hide Sbox, Rounds;
    SboxValue(4586011695462837202, 14438011071431230528,
              0x3d8c1227b1a9683a1d43c30e8e4baaedd7d4eb634832e52ebdb385a30ae527f55e3529f868c95390a814f225a8840);
    PartialStep(s, r, State(4202018225690640105, 314395475677335675,
                            5857661779163310922, 9637767587786375),
                      State(4586011695462837202, 9514066930325255725,
                            1796407273676257496, 15182288842751693634),
                      State(14438011071431230528, 9514066930325255725,
                            1796407273676257496, 15182288842751693634),
                      State(4037285979355268741, 13551352909680524466,
                            7630100526707783733, 12690664368781181001));
  }

  lemma Round9(s: State, r: nat)
    requires r == 9 && Rounds(r, s) == State(4037285979355268741, 13551352909680524466,
                                             7630100526707783733, 12690664368781181001)
    ensures Rounds(r + 1, s) == State(16778506179531304164, 9050850216726190840,
                                      11970958648167994067, 6324165578626718763)
  {
    hide Sbox, Rounds;
    SboxValue(10285964783906500685, 2724600004197724522,
              0x44a642fa5647bcfd0d7b975382edf7096a04a9f26a501364a44846262b64335b5584892c7a2ea97c9f3d60292d1e9bb);
    PartialStep(s, r, State(4037285979355268741, 13551352909680524466,
                            7630100526707783733, 12690664368781181001),
                      State(10285964783906500685, 10719088106609470997,
                            6819598269025637112, 14961963869113055854),
                      State(2724600004197724522, 10719088106609470997,
                            6819598269025637112, 14961963869113055854),
                      State(16778506179531304164, 9050850216726190840,
                            11970958648167994067, 6324165578626718763));
  }

  lemma Round10(s: State, r: nat)
    requires r == 10 && Rounds(r, s) == State(16778506179531304164, 9050850216726190840,
                                              11970958648167994067, 6324165578626718763)
    ensures Rounds(r + 1, s) == State(5566190549177579360, 2633911712350955558,
                                      18397609177771518825, 15767854478670874567)
  {
    hide Sbox, Rounds;
    SboxValue(2679622821520106852, 1756662773445232414,
              0x16e5e33303b3549746daaefe8957ac5aa005bdbe6ddd35e22e23dc0cd426da5ad25402e9884a021182ef864f38e2);
    PartialStep(s, r, State(16778506179531304164, 9050850216726190840,
                            11970958648167994067, 6324165578626718763),
                      State(2679622821520106852, 15514465232587960519,
                            15639081349004261893, 9549469332969293176),
                      State(1756662773445232414, 15514465232587960519,
                            15639081349004261893, 9549469332969293176),
                      State(5566190549177579360, 2633911712350955558,
                            18397609177771518825, 15767854478670874567));
  }

  lemma Round11(s: State, r: nat)
    requires r == 11 && Rounds(r, s) == State(5566190549177579360, 2633911712350955558,
                                              18397609177771518825, 15767854478670874567)
    ensures Rounds(r + 1, s) == State(13831915310982290199, 2550653465184384009,
                                      11676926043247752388, 9835571962464631007)
  {
    hide Sbox, Rounds;
    SboxValue(6746329368417538212, 12150499515641198091,
              0x3958f732e9ce48a88fe8d7577e55225caa97105f09c3053eb58a67824a1be37096c8d560bdd9a2ea39dbbc7e3cc9f5);
    PartialStep(s, r, State(5566190549177579360, 2633911712350955558,
                            18397609177771518825, 15767854478670874567),
                      State(6746329368417538212, 7165482223616678131,
                            8145877400840023255, 4816800240298975043),
                      State(12150499515641198091, 7165482223616678131,
                            8145877400840023255, 4816800240298975043),
                      State(13831915310982290199, 2550653465184384009,
                            11676926043247752388, 9835571962464631007));
  }

  lemma Round12(s: State, r: nat)
    requires r == 12 && Rounds(r, s) == State(13831915310982290199, 2550653465184384009,
                                              11676926043247752388, 9835571962464631007)
    ensures Rounds(r + 1, s) == State(8685923981698748440, 15058999768552696624,
                                      6798090260151495463, 6263127244833572123)
  {
    hide Sbox, Rounds;
    SboxValue(17236141016810722329, 989906623004388130,
              0x9f2d7c9dd88e33801b2eb6199690c90fe7e180fe65845f376e533f915eaa7c99427c5a9213dbbc87c3ebca9c62a1e2c7);
    PartialStep(s, r, State(13831915310982290199, 2550653465184384009,
                            11676926043247752388, 9835571962464631007),
                      State(17236141016810722329, 6373075786853948184,
                            8279455173933665672, 11490230467321330775),
                      State(989906623004388130, 6373075786853948184,
                            8279455173933665672, 11490230467321330775),
                      State(8685923981698748440, 15058999768552696624,
                            6798090260151495463, 6263127244833572123));
  }

  lemma Round13(s: State, r: nat)
    requires r == 13 && Rounds(r, s) == State(8685923981698748440, 15058999768552696624,
                                              6798090260151495463, 6263127244833572123)
    ensures Rounds(r + 1, s) == State(9133130910488410083, 6117761184958246114,
                                      16992841550568198029, 4430580262616378090)
  {
    hide Sbox, Rounds;
    SboxValue(17633437899603759861, 3637247508797829303,
              0xbab5052a1bf79cd61da7a57dea51f27dbd0810c9efa021c5ad870f7ac0470f474a00e264e06641a9d0421dc64c408286);
    PartialStep(s, r, State(8685923981698748440, 15058999768552696624,
                            6798090260151495463, 6263127244833572123),
                      State(17633437899603759861, 15431374343884420352,
                            3929855320039893973, 4581397807180850776),
                      State(3637247508797829303, 15431374343884420352,
                            3929855320039893973, 4581397807180850776),
                      State(9133130910488410083, 6117761184958246114,
                            16992841550568198029, 4430580262616378090));
  }

  lemma Round14(s: State, r: nat)
    requires r == 14 && Rounds(r, s) == State(9133130910488410083, 6117761184958246114,
                                              16992841550568198029, 4430580262616378090)
    ensures Rounds(r + 1, s) == State(14848090718748570346, 6569618045668105120,
                                      17859504512660997882, 12057960032711736957)
  {
    hide Sbox, Rounds;
    SboxValue(12346070808766641662, 16401985367080238160,
              0xf663dce33b511789e9bb6f98bbd2a5c691592a0411bc975855ecb0afd215683fcf2ae87ce89f190faba7ce360b58330);
    PartialStep(s, r, State(9133130910488410083, 6117761184958246114,
                            16992841550568198029, 4430580262616378090),
                      State(12346070808766641662, 10168271396334119095,
                            1505706896956213768, 5218871127792583644),
                      State(16401985367080238160, 10168271396334119095,
                            1505706896956213768, 5218871127792583644),
                      State(14848090718748570346, 6569618045668105120,
                            17859504512660997882, 12057960032711736957));
  }

  lemma Round15(s: State, r: nat)
    requires r == 15 && Rounds(r, s) == State(14848090718748570346, 6569618045668105120,
                                              17859504512660997882, 12057960032711736957)
    ensures Rounds(r + 1, s) == State(6242781152786653891, 14634785879774732416,
                                      10957505564884599127, 6528162967455864283)
  {
    hide Sbox, Rounds;
    SboxValue(305084295665434455, 13845031017607783605,
              0x5f444071185d7cbaebe22616cedd2a9ff990d20e0248a8e143b4dd663e3b8258d402b923636c05882dcd72);
    PartialStep(s, r, State(14848090718748570346, 6569618045668105120,
                            17859504512660997882, 12057960032711736957),
                      State(305084295665434455, 8392004726988078525,
                            2357362206048972618, 95127271556403464),
                      State(13845031017607783605, 8392004726988078525,
                            2357362206048972618, 95127271556403464),
                      State(6242781152786653891, 14634785879774732416,
                            10957505564884599127, 6528162967455864283));
  }

  lemma Round16(s: State, r: nat)
    requires r == 16 && Rounds(r, s) == State(6242781152786653891, 14634785879774732416,
                                              10957505564884599127, 6528162967455864283)
    ensures Rounds(r + 1, s) == State(17239167481528708222, 13959293012074592887,
                                      15443300748410118316, 14910994353219588401)
  {
    hide Sbox, Rounds;
    SboxValue(11705706887647750499, 9895203647368768903,
              0xa9b58ea67629c404c889117370dfb82b9b3b62c06dcc539828d83145de31f55d072bec000e979247a4b284ef3b437a4);
    PartialStep(s, r, State(6242781152786653891, 14634785879774732416,
                            10957505564884599127, 6528162967455864283),
                      State(11705706887647750499, 15166869599960468986,
                            17548810702855289368, 11521771670173349607),
                      State(9895203647368768903, 15166869599960468986,
                            17548810702855289368, 11521771670173349607),
                      State(17239167481528708222, 13959293012074592887,
                            15443300748410118316, 14910994353219588401));
  }

  lemma Round17(s: State, r: nat)
    requires r == 17 && Rounds(r, s) == State(17239167481528708222, 13959293012074592887,
                                              15443300748410118316, 14910994353219588401)
    ensures Rounds(r + 1, s) == State(17417955579418234253, 8991367672775235484,
                                      16591081115592213847, 10910172244173293513)
  {
    hide Sbox, Rounds;
    SboxValue(3578803741183345546, 9980497760307972484,
              0xad8f176e63e7fedb0f0ba70e0b1b7c7c483380e9e9aa1bb0fa546b34d687a4ead7e6a8f9cbeff122609c575aacfc);
    PartialStep(s, r, State(17239167481528708222, 13959293012074592887,
                            15443300748410118316, 14910994353219588401),
                      State(3578803741183345546, 10020156162771585552,
                            18033306837501574118, 16277482957666270741),
                      State(9980497760307972484, 10020156162771585552,
                            18033306837501574118, 16277482957666270741),
                      State(17417955579418234253, 8991367672775235484,
                            16591081115592213847, 10910172244173293513));
  }

  lemma Round18(s: State, r: nat)
    requires r == 18 && Rounds(r, s) == State(17417955579418234253, 8991367672775235484,
                                              16591081115592213847, 10910172244173293513)
    ensures Rounds(r + 1, s) == State(13019679640497501185, 3798305623715193895,
                                      2658757718141076298, 3818968919703024341)
  {
    hide Sbox, Rounds;
    SboxValue(5679830602713414240, 2818302087934303385,
              0x1131cac400cac8555e9d4c1e1ea2a432f3fdd5da0dc1a8d489574e01e173df466e85609b5f0d2aa7a48a6ddaef2367);
    PartialStep(s, r, State(17417955579418234253, 8991367672775235484,
                            16591081115592213847, 10910172244173293513),
                      State(5679830602713414240, 9225370052632277031,
                            4042911073529079717, 15379840495816425373),
                      State(2818302087934303385, 9225370052632277031,
                            4042911073529079717, 15379840495816425373),
                      State(13019679640497501185, 3798305623715193895,
                            2658757718141076298, 3818968919703024341));
  }

  lemma Round19(s: State, r: nat)
    requires r == 19 && Rounds(r, s) == State(13019679640497501185, 3798305623715193895,
                                              2658757718141076298, 3818968919703024341)
    ensures Rounds(r + 1, s) == State(12272730658399535830, 787150023370313548,
                                      11337549548402595134, 5144131768201110869)
  {
    hide Sbox, Rounds;
    SboxValue(5382209395013142490, 14304272098883647233,
              0xbcbfe43efbc093cf82073c1c1e68b81f9a071fb98a0bc75c34cdb7bb15a09d86e7d223055194b8592dafaa89d0b7f);
    PartialStep(s, r, State(13019679640497501185, 3798305623715193895,
                            2658757718141076298, 3818968919703024341),
                      State(5382209395013142490, 6961163434385362039,
                            17979153514416113973, 9921629749543581227),
                      State(14304272098883647233, 6961163434385362039,
                            17979153514416113973, 9921629749543581227),
                      State(12272730658399535830, 787150023370313548,
                            11337549548402595134, 5144131768201110869));
  }

  lemma Round20(s: State, r: nat)
    requires r == 20 && Rounds(r, s) == State(12272730658399535830, 787150023370313548,
                                              11337549548402595134, 5144131768201110869)
    ensures Rounds(r + 1, s) == State(204242251113756358, 12388986762190678633,
                                      2912859153045199908, 16477424346526385949)
  {
    hide Sbox, Rounds;
    SboxValue(18171029253773097463, 11985368706291209646,
              0xe6632860f4340e4d6e3db45e4e8d3e082b7a660241a24e6512edf44c42e0e5d4e82f3dea4ceb1ae54bd26249fde6e4d9);
    PartialStep(s, r, State(12272730658399535830, 787150023370313548,
                            11337549548402595134, 5144131768201110869),
                      State(18171029253773097463, 12184744511076922275,
                            1354308450965721775, 11573308721609071304),
                      State(11985368706291209646, 12184744511076922275,
                            1354308450965721775, 11573308721609071304),
                      State(204242251113756358, 12388986762190678633,
                            2912859153045199908, 16477424346526385949));
  }

  lemma Round21(s: State, r: nat)
    requires r == 21 && Rounds(r, s) == State(204242251113756358, 12388986762190678633,
                                              2912859153045199908, 16477424346526385949)
    ensures Rounds(r + 1, s) == State(5628499593875181354, 1176713440752720915,
                                      378002940888432691, 2040386281484427691)
  {
    hide Sbox, Rounds;
    SboxValue(14009900521940125438, 10827114499385503292,
              0x254fd8237778392b99ac082a8b6ee0ef09091a2f67b0de01e0a12a00e71267636b74250415bca30508974e2ca7d19144);
    PartialStep(s, r, State(204242251113756358, 12388986762190678633,
                            2912859153045199908, 16477424346526385949),
                      State(14009900521940125438, 13994957916292123882,
                            6598123708213917829, 11101791608812804993),
                      State(10827114499385503292, 13994957916292123882,
                            6598123708213917829, 11101791608812804993),
                      State(5628499593875181354, 1176713440752720915,
                            378002940888432691, 2040386281484427691));
  }

  lemma Round22(s: State, r: nat)
    requires r == 22 && Rounds(r, s) == State(5628499593875181354, 1176713440752720915,
                                              378002940888432691, 2040386281484427691)
    ensures Rounds(r + 1, s) == State(1525985767392629372, 3179767514485696242,
                                      2615305897300437948, 17689756324658379163)
  {
    hide Sbox, Rounds;
    SboxValue(4032468009274605, 6237449815866797831,
              0x761e586de6b9144359cdde47f7ca6c5a989c53f9fc34824546ce3ff2d2a027aa0d515566d7e);
    PartialStep(s, r, State(5628499593875181354, 1176713440752720915,
                            378002940888432691, 2040386281484427691),
                      State(4032468009274605, 1653781747093066870,
                            544660064953904288, 11536838208893444704),
                      State(6237449815866797831, 1653781747093066870,
                            544660064953904288, 11536838208893444704),
                      State(1525985767392629372, 3179767514485696242,
                            2615305897300437948, 17689756324658379163));
  }

  lemma Round23(s: State, r: nat)
    requires r == 23 && Rounds(r, s) == State(1525985767392629372, 3179767514485696242,
                                              2615305897300437948, 17689756324658379163)
    ensures Rounds(r + 1, s) == State(14320825310998278613, 2712789829814065200,
                                      5071661551588200734, 2473157361752259061)
  {
    hide Sbox, Rounds;
    SboxValue(12679726824163219542, 6832549217514327668,
              0x128f4928a508a42331c605bf72f3a232407f8953cdb775d0bd9fd7dc937512589cc9a9992696dc6e105f066514f6430c);
    PartialStep(s, r, State(1525985767392629372, 3179767514485696242,
                            2615305897300437948, 17689756324658379163),
                      State(12679726824163219542, 6838708588230370908,
                            4598790155002253221, 14497521419665911137),
                      State(6832549217514327668, 6838708588230370908,
                            4598790155002253221, 14497521419665911137),
                      State(14320825310998278613, 2712789829814065200,
                            5071661551588200734, 2473157361752259061));
  }

  lemma Round24(s: State, r: nat)
    requires r == 24 && Rounds(r, s) == State(14320825310998278613, 2712789829814065200,
                                              5071661551588200734, 2473157361752259061)
    ensures Rounds(r + 1, s) == State(5437926832388449211, 9739525071078618681,
                                      7142771289247858551, 13679676993795284404)
  {
    hide Sbox, Rounds;
    SboxValue(11894603159033632149, 9834485691076019554,
              0xbdd53c0c2d65364a9681887418e041402ff5a4ee06d4322d12e1f86c5eb4754401be1f7755a8c706fe3a103cf45633b);
    PartialStep(s, r, State(14320825310998278613, 2712789829814065200,
                            5071661551588200734, 2473157361752259061),
                      State(11894603159033632149, 4301598238690169470,
                            852422228429704670, 8896164743607139838),
                      State(9834485691076019554, 4301598238690169470,
                            852422228429704670, 8896164743607139838),
                      State(5437926832388449211, 9739525071078618681,
                            7142771289247858551, 13679676993795284404));
  }

  lemma Round25(s: State, r: nat)
    requires r == 25 && Rounds(r, s) == State(5437926832388449211, 9739525071078618681,
                                              7142771289247858551, 13679676993795284404)
    ensures Rounds(r + 1, s) == State(10222903809553951819, 14407733013741564041,
                                      336501515233322631, 588391469378451003)
  {
    hide Sbox, Rounds;
    SboxValue(5847902932910871025, 8043865176113626356,
              0x15169f4002dcbd31d9e42e6ff444655da579adfd39002f783df0d83bed9601f5b6ba630c7f6dbe796d61d43d86e59d);
    PartialStep(s, r, State(5437926832388449211, 9739525071078618681,
                            7142771289247858551, 13679676993795284404),
                      State(5847902932910871025, 4184829204187612222,
                            13503542922254269727, 2937410576413027835),
                      State(8043865176113626356, 4184829204187612222,
                            13503542922254269727, 2937410576413027835),
                      State(10222903809553951819, 14407733013741564041,
                            336501515233322631, 588391469378451003));
  }

  lemma Round26(s: State, r: nat)
    requires r == 26 && Rounds(r, s) == State(10222903809553951819, 14407733013741564041,
                                              336501515233322631, 588391469378451003)
    ensures Rounds(r + 1, s) == State(2270969261249678147, 16412828859050010683,
                                      18149604268460215665, 18299447993634557122)
  {
    hide Sbox, Rounds;
    SboxValue(13481825134834374396, 2897793885463926305,
              0x1c835334a5c0600c5c80eb23805df5b875b6592b724c61a8a4bda8fc4e2d0eff7b13ff5a8fcb40c9f378b1d34aaf69df);
    SboxValue(7163581692122723939, 875503578269023751,
              0x5749ab4b1e5dc15d06c3e99182ce2ba73fce968b85da7ef2abc336eb9781dc1a12e45d04ea569b1b891a3880f34a24);
    SboxValue(6009660171598325712, 6952638878218998230,
              0x1986c8b8296e8a138832253d24098984794a55f1e6eebd2adc56202d5e2578783aa3ac232136e96dd02080342fae2a);
    SboxValue(3344441246783639686, 10013689372023878366,
              0x6c07d62a5a119872ee41e8a00321c9eadab323bf2559a9f95cbcea4dd21e8b519b7040615905a4a7afe0c21fb2a2);
    FullStep(s, r, State(10222903809553951819, 14407733013741564041,
                         336501515233322631, 588391469378451003),
                   State(13481825134834374396, 7163581692122723939,
                         6009660171598325712, 3344441246783639686),
                   State(2897793885463926305, 875503578269023751,
                         6952638878218998230, 10013689372023878366),
                   State(2270969261249678147, 16412828859050010683,
                         18149604268460215665, 18299447993634557122));
  }

  lemma Round27(s: State, r: nat)
    requires r == 27 && Rounds(r, s) == State(2270969261249678147, 16412828859050010683,
                                              18149604268460215665, 18299447993634557122)
    ensures Rounds(r + 1, s) == State(2217637343370394199, 11470401617125377980,
                                      13153299727438105923, 14008676028870123024)
  {
    hide Sbox, Rounds;
    SboxValue(12250889212934295307, 15156722321859208656,
              0xe9659e9161a4039f59b1540e5d521059568bddfc2eb0a219949e49a38e7a4626eaea0d6951732f9f2e658da893544f3);
    SboxValue(7737729522502238684, 8964234431139094335,
              0x95bd56ce05c93a015e616566115b8cde488d33fcc921a812e8b0a8eaa610fe98633be0249d211fbe2e5562e4a2a0c1);
    SboxValue(9011072802001744213, 16206395818399579491,
              0x1b2fcf338758fd361476aff7e1b74949ee21b8e6c6a54c10e2f033aef9115e2b99b1e970c17015214082e815df3077a);
    SboxValue(12334180817489207836, 10648476530615651431,
              0xf4bbde7c6bc7a0a0e7ab36634980013e925d71ae4f2aadffab8e1f10dc9741151e9e8e440b5131cd8506cbdfaafb399);
    FullStep(s, r, State(2270969261249678147, 16412828859050010683,
                         18149604268460215665, 18299447993634557122),
                   State(12250889212934295307, 7737729522502238684,
                         9011072802001744213, 12334180817489207836),
                   State(15156722321859208656, 8964234431139094335,
                         16206395818399579491, 10648476530615651431),
                   State(2217637343370394199, 11470401617125377980,
                         13153299727438105923, 14008676028870123024));
  }

  lemma Round28(s: State, r: nat)
    requires r == 28 && Rounds(r, s) == State(2217637343370394199, 11470401617125377980,
                                              13153299727438105923, 14008676028870123024)
    ensures Rounds(r + 1, s) == State(17153308074050784731, 9406700608426743149,
                                      280630067009589938, 1205362702819509930)
  {
    hide Sbox, Rounds;
    SboxValue(15066519777491921681, 8624260882537411698,
              0x3e125089210e023d00cc51b1eb5605f92c8a252ef3b157f19151e4c8bb7e56481235cd2012029c963bbaf6eaca255dff);
    SboxValue(18123405236874010009, 8196319465788258009,
              0xe23196c0307afecbb58e3c53877c15613fbd670075fd99dda403ae6fc09799fda52d6c480c6152e02f796c930353e190);
    SboxValue(13340147707657902582, 2928657352504520421,
              0x1a7b02d3abfe04b32b3e962f7633b534c3aea3636782057dd6e324278a46dabb4bb92d8b068dac6131ce8dd53af2ba9b);
    SboxValue(13048281515981567856, 14285439511414496668,
              0x16ae824a2c1225da5a1ff5391ddb7c0f09cb38b958fdcdec354477146f74586571b1d2d1ed9d3a39346ad9e81dcf2264);
    FullStep(s, r, State(2217637343370394199, 11470401617125377980,
                         13153299727438105923, 14008676028870123024),
                   State(15066519777491921681, 18123405236874010009,
                         13340147707657902582, 13048281515981567856),
                   State(8624260882537411698, 8196319465788258009,
                         2928657352504520421, 14285439511414496668),
                   State(17153308074050784731, 9406700608426743149,
                         280630067009589938, 1205362702819509930));
  }

  lemma Round29(s: State, r: nat)
    requires r == 29 && Rounds(r, s) == State(17153308074050784731, 9406700608426743149,
                                              280630067009589938, 1205362702819509930)
    ensures Rounds(r + 1, s) == State(10530566109274847500, 17591157188332984702,
                                      4065789226231672842, 14761522414442061790)
  {
    hide Sbox, Rounds;
    SboxValue(3931009762706336440, 15329142619328680581,
              0x14ed1c8518727ed925e6325b4196012bc3ea9537a2144f6457e25de7937484074211cc52b6b26a0562c6bcc7ced7b);
    SboxValue(7718221186021491010, 8851620415302834096,
              0x931de9d4d4da4b132ecbc58c749d3bf4282269a40d7e594631e940ee0e178b2aa7e8b1c89d65ae5d58a765f90398d0);
    SboxValue(8229568164871344352, 1039691803623710872,
              0xe6816544858ab520141d21fd110d77a0fe9f4dee35954c5e9da65dc924e4be5e756f3a7b72f866d83508f0291f9f68);
    SboxValue(16206448201280708924, 12301504975539717980,
              0x676c44f7d811c5ab510822815abf37fef03cc7686818cd3031ebf63ece1e8a80090276bd8e63b0ec0e871433bd8cf8a4);
    FullStep(s, r, State(17153308074050784731, 9406700608426743149,
                         280630067009589938, 1205362702819509930),
                   State(3931009762706336440, 7718221186021491010,
                         8229568164871344352, 16206448201280708924),
                   State(15329142619328680581, 8851620415302834096,
                         1039691803623710872, 12301504975539717980),
                   State(10530566109274847500, 17591157188332984702,
                         4065789226231672842, 14761522414442061790));
  }

  /** permutation([0, 0, 0, 0]) is TV_ZERO_OUT. */
  lemma ZeroVector(s: State)
    requires s == State(0, 0, 0, 0)
    ensures Permutation(s) == State(0x922416154318390c, 0xf4205842c6a5997e, 0x386c95c28126300a, 0xccdb766d10c91fde)
  {
    hide Rounds, FullLayer;
    ZeroMixed(s);
    AllRounds(s, 0);
  }

  lemma ZeroMixed(s: State)
    requires s == State(0, 0, 0, 0)
    ensures FullLayer(s) == s
  {
    ModSmall(0, P);
  }

  lemma AllRounds(s: State, r: nat)
    requires s == State(0, 0, 0, 0) && r == 0
    ensures Rounds(r + 30, s) == State(0x922416154318390c, 0xf4205842c6a5997e, 0x386c95c28126300a, 0xccdb766d10c91fde)
  {
    hide Rounds;
    NoRounds(s, r);
    FirstRounds(s, r);
    MiddleRounds(s, r + 10);
    LastRounds(s, r + 20);
  }

  lemma FirstRounds(s: State, r: nat)
    requires r == 0 && Rounds(r, s) == State(0, 0,
                                             0, 0)
    ensures Rounds(r + 10, s) == State(16778506179531304164, 9050850216726190840,
                                       11970958648167994067, 6324165578626718763)
  {
    hide Rounds;
    Round0(s, r + 0);
    Round1(s, r + 1);
    Round2(s, r + 2);
    Round3(s, r + 3);
    Round4(s, r + 4);
    Round5(s, r + 5);
    Round6(s, r + 6);
    Round7(s, r + 7);
    Round8(s, r + 8);
    Round9(s, r + 9);
  }

  lemma MiddleRounds(s: State, r: nat)
    requires r == 10 && Rounds(r, s) == State(16778506179531304164, 9050850216726190840,
                                              11970958648167994067, 6324165578626718763)
    ensures Rounds(r + 10, s) == State(12272730658399535830, 787150023370313548,
                                       11337549548402595134, 5144131768201110869)
  {
    hide Rounds;
    Round10(s, r + 0);
    Round11(s, r + 1);
    Round12(s, r + 2);
    Round13(s, r + 3);
    Round14(s, r + 4);
    Round15(s, r + 5);
    Round16(s, r + 6);
    Round17(s, r + 7);
    Round18(s, r + 8);
    Round19(s, r + 9);
  }

  lemma LastRounds(s: State, r: nat)
    requires r == 20 && Rounds(r, s) == State(12272730658399535830, 787150023370313548,
                                              11337549548402595134, 5144131768201110869)
    ensures Rounds(r + 10, s) == State(10530566109274847500, 17591157188332984702,
                                       4065789226231672842, 14761522414442061790)
  {
    hide Rounds;
    Round20(s, r + 0);
    Round21(s, r + 1);
    Round22(s, r + 2);
    Round23(s, r + 3);
    Round24(s, r + 4);
    Round25(s, r + 5);
    Round26(s, r + 6);
    Round27(s, r + 7);
    Round28(s, r + 8);
    Round29(s, r + 9);
  }

  lemma NoRounds(s: State, r: nat)
    requires r == 0
    ensures Rounds(r, s) == s
  {
  }
}
